/**
 The array loops that bpt.cc repeats for keys and for pointers: opening a gap, closing one, and copying
 a run of slots. Each is specified by what it does to the sequence of used slots.
 */
module Arrays {
  import opened Sequences
  import opened BPlusGraph

  /** Shifts the slots from i on one to the right and puts x into the gap. */
  method InsertAt<T>(a: array<T>, n: nat, i: nat, x: T)
    requires i <= n < a.Length
    modifies a
    ensures a[..n + 1] == Ins(old(a[..n]), i, x)
    ensures forall k :: n < k < a.Length ==> a[k] == old(a[k])
  {
    var j := n;
    while j > i
      invariant i <= j <= n
      invariant a[..j] == old(a[..j]) && a[j + 1..n + 1] == old(a[j..n])
      invariant forall k :: n < k < a.Length ==> a[k] == old(a[k])
    {
      a[j] := a[j - 1];
      j := j - 1;
    }
    ghost var s := old(a[..n]);
    a[i] := x;
    assert a[..i] == s[..i] && a[i + 1..n + 1] == s[i..];
    assert a[..n + 1] == a[..i] + [x] + a[i + 1..n + 1];
  }

  /** Shifts the slots after i one to the left, over slot i. */
  method DeleteAt<T>(a: array<T>, n: nat, i: nat)
    requires i < n <= a.Length
    modifies a
    ensures a[..n - 1] == Without(old(a[..n]), i)
    ensures forall k :: n <= k < a.Length ==> a[k] == old(a[k])
  {
    var j := i + 1;
    while j < n
      invariant i < j <= n
      invariant a[..i] == old(a[..i]) && a[i..j - 1] == old(a[i + 1..j])
      invariant forall k :: j <= k < a.Length ==> a[k] == old(a[k])
    {
      a[j - 1] := a[j];
      j := j + 1;
    }
  }

  /** Copies src[from..to] to dst[at..]. */
  method CopyRange<T>(src: array<T>, from: nat, to: nat, dst: array<T>, at: nat)
    requires src != dst && from <= to <= src.Length && at + (to - from) <= dst.Length
    modifies dst
    ensures dst[at..at + (to - from)] == src[from..to]
    ensures dst[..at] == old(dst[..at])
    ensures forall k :: at + (to - from) <= k < dst.Length ==> dst[k] == old(dst[k])
  {
    var i, j := from, at;
    while i < to
      invariant from <= i <= to && j == at + (i - from)
      invariant dst[..at] == old(dst[..at]) && dst[at..j] == src[from..i]
      invariant forall k :: j <= k < dst.Length ==> dst[k] == old(dst[k])
    {
      dst[j] := src[i];
      i, j := i + 1, j + 1;
    }
  }

  /** Copies the first n slots of src to dst with x inserted at i: the temporary array of a split. */
  method CopyWithInsert<T>(src: array<T>, n: nat, dst: array<T>, i: nat, x: T)
    requires src != dst && i <= n <= src.Length && n < dst.Length
    modifies dst
    ensures dst[..n + 1] == Ins(src[..n], i, x)
  {
    var s, d := 0, 0;
    while s < n
      invariant s <= n && d == (if s <= i then s else s + 1)
      invariant forall k :: 0 <= k < s ==> dst[if k < i then k else k + 1] == src[k]
    {
      if d == i { d := d + 1; }
      dst[d] := src[s];
      s, d := s + 1, d + 1;
    }
    dst[i] := x;
    assert forall k :: 0 <= k <= n ==> dst[k] == Ins(src[..n], i, x)[k] by {
      forall k | 0 <= k <= n ensures dst[k] == Ins(src[..n], i, x)[k] {
        if k < i { assert dst[if k < i then k else k + 1] == src[k]; }
        else if k > i { assert dst[if k - 1 < i then k - 1 else k] == src[k - 1]; }
      }
    }
  }

  /** Sets the slots from..to to x. */
  method Fill<T>(a: array<T>, from: nat, to: nat, x: T)
    requires from <= to <= a.Length
    modifies a
    ensures a[..from] == old(a[..from])
    ensures forall k :: to <= k < a.Length ==> a[k] == old(a[k])
    ensures forall i :: from <= i < to ==> a[i] == x
  {
    var i := from;
    while i < to
      invariant from <= i <= to
      invariant a[..from] == old(a[..from])
      invariant forall k :: i <= k < a.Length ==> a[k] == old(a[k])
      invariant forall j :: from <= j < i ==> a[j] == x
    {
      a[i] := x;
      i := i + 1;
    }
  }

  /** Copies temp[..low] to the start of left and temp[high..] to the start of right. */
  method Divide<T>(temp: array<T>, low: nat, high: nat, left: array<T>, right: array<T>)
    requires temp != left && temp != right && left != right
    requires low <= high <= temp.Length && low <= left.Length && temp.Length - high <= right.Length
    modifies left, right
    ensures left[..low] == temp[..low]
    ensures forall k :: low <= k < left.Length ==> left[k] == old(left[k])
    ensures right[..temp.Length - high] == temp[high..]
  {
    CopyRange(temp, 0, low, left, 0);
    CopyRange(temp, high, temp.Length, right, 0);
  }

  /** The scan for a slot that is known to be there: it stops at the first one. */
  method FirstIndex<T(==)>(a: array<T>, x: T, ghost i: nat) returns (k: nat)
    requires i < a.Length && a[i] == x && forall j :: 0 <= j < i ==> a[j] != x
    ensures k == i
  {
    k := 0;
    while a[k] != x
      invariant k <= i
      decreases i - k
    {
      k := k + 1;
    }
  }

  /** Appends the first n slots of src to the first m slots of dst. */
  method Append<T>(src: array<T>, n: nat, dst: array<T>, m: nat)
    requires src != dst && n <= src.Length && m + n <= dst.Length
    modifies dst
    ensures dst[..m + n] == old(dst[..m]) + src[..n]
    ensures forall k :: m + n <= k < dst.Length ==> dst[k] == old(dst[k])
  {
    CopyRange(src, 0, n, dst, m);
    assert dst[..m + n] == dst[..m] + dst[m..m + n];
  }

  method PushFront<T>(a: array<T>, n: nat, x: T)
    requires n < a.Length
    modifies a
    ensures a[..n + 1] == [x] + old(a[..n])
    ensures forall k :: n < k < a.Length ==> a[k] == old(a[k])
  {
    InsertAt(a, n, 0, x);
  }

  method PopFront<T>(a: array<T>, n: nat)
    requires 0 < n <= a.Length
    modifies a
    ensures a[..n - 1] == old(a[..n])[1..]
    ensures forall k :: n <= k < a.Length ==> a[k] == old(a[k])
  {
    DeleteAt(a, n, 0);
  }

  method PushBack<T>(a: array<T>, n: nat, x: T)
    requires n < a.Length
    modifies a
    ensures a[..n + 1] == old(a[..n]) + [x]
    ensures forall k :: n < k < a.Length ==> a[k] == old(a[k])
  {
    a[n] := x;
  }

  /** Moves the first of n slots of src to the end of the m slots of dst. */
  method MoveFirst<T>(src: array<T>, n: nat, dst: array<T>, m: nat)
    requires src != dst && 0 < n <= src.Length && m < dst.Length
    modifies src, dst
    ensures dst[..m + 1] == old(dst[..m]) + [old(src[..n])[0]]
    ensures src[..n - 1] == old(src[..n])[1..]
    ensures forall k :: m < k < dst.Length ==> dst[k] == old(dst[k])
    ensures forall k :: n <= k < src.Length ==> src[k] == old(src[k])
  {
    PushBack(dst, m, src[0]);
    PopFront(src, n);
  }
}
