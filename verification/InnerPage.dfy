/**
 The internal pages of the on-disk tree: behind the header, page numbers and keys alternate, beginning with the
 last field of the header. newbpt.cc shifts them in place or divides them between two pages.
 */
module InnerPage {
  import opened PageBytes
  import opened LeafLayout
  import opened LeafPage
  import G = BPlusGraph

  const MAX_KEY_NUMBER := 248

  function KeyAt(p: Page, i: nat): int
    requires i < MAX_KEY_NUMBER
  {
    Signed(GetNumber(p, 128 + 16 * i, 8))
  }

  function ChildAt(p: Page, i: nat): nat
    requires i <= MAX_KEY_NUMBER
  {
    GetNumber(p, 120 + 16 * i, 8)
  }

  ghost predicate Numbers(cs: seq<nat>) {
    forall i :: 0 <= i < |cs| ==> cs[i] < U64
  }

  /** The page is an internal one with these keys and children. */
  ghost predicate InnerOn(p: Page, keys: seq<int>, cs: seq<nat>, parent: nat) {
    && |keys| <= MAX_KEY_NUMBER && |cs| == |keys| + 1 && Ranged(keys) && Numbers(cs)
    && ParentOf(p) == parent && IsLeaf(p) == 0 && KeyCount(p) == |keys|
    && (forall i :: 0 <= i < |keys| ==> KeyAt(p, i) == keys[i])
    && (forall i :: 0 <= i < |cs| ==> ChildAt(p, i) == cs[i])
  }

  ghost predicate SameCells(p: Page, q: Page, exceptKey: int, exceptChild: int) {
    && ParentOf(q) == ParentOf(p) && IsLeaf(q) == IsLeaf(p) && KeyCount(q) == KeyCount(p)
    && (forall i: nat :: i < MAX_KEY_NUMBER && i != exceptKey ==> KeyAt(q, i) == KeyAt(p, i))
    && (forall i: nat :: i <= MAX_KEY_NUMBER && i != exceptChild ==> ChildAt(q, i) == ChildAt(p, i))
  }

  // ----- Setters -----

  lemma KeyCell(p: Page, i: nat, k: int)
    requires i < MAX_KEY_NUMBER && -I64 <= k < I64
    ensures var q := PutNumber(p, 128 + 16 * i, 8, Unsigned(k)); KeyAt(q, i) == k && SameCells(p, q, i, -1)
  {
    hide GetNumber, PutNumber;
    Radix8();
    var at, v := 128 + 16 * i, Unsigned(k);
    NumberRoundTrip(p, at, 8, v);
    NumberElsewhere(p, at, 8, v, 0, 8);
    NumberElsewhere(p, at, 8, v, 8, 4);
    NumberElsewhere(p, at, 8, v, 12, 4);
    forall j: nat | j < MAX_KEY_NUMBER && j != i ensures KeyAt(PutNumber(p, at, 8, v), j) == KeyAt(p, j) {
      NumberElsewhere(p, at, 8, v, 128 + 16 * j, 8);
    }
    forall j: nat | j <= MAX_KEY_NUMBER ensures ChildAt(PutNumber(p, at, 8, v), j) == ChildAt(p, j) {
      NumberElsewhere(p, at, 8, v, 120 + 16 * j, 8);
    }
  }

  lemma ChildCell(p: Page, i: nat, c: nat)
    requires i <= MAX_KEY_NUMBER && c < U64
    ensures var q := PutNumber(p, 120 + 16 * i, 8, c); ChildAt(q, i) == c && SameCells(p, q, -1, i)
  {
    hide GetNumber, PutNumber;
    Radix8();
    var at := 120 + 16 * i;
    NumberRoundTrip(p, at, 8, c);
    NumberElsewhere(p, at, 8, c, 0, 8);
    NumberElsewhere(p, at, 8, c, 8, 4);
    NumberElsewhere(p, at, 8, c, 12, 4);
    forall j: nat | j < MAX_KEY_NUMBER ensures KeyAt(PutNumber(p, at, 8, c), j) == KeyAt(p, j) {
      NumberElsewhere(p, at, 8, c, 128 + 16 * j, 8);
    }
    forall j: nat | j <= MAX_KEY_NUMBER && j != i ensures ChildAt(PutNumber(p, at, 8, c), j) == ChildAt(p, j) {
      NumberElsewhere(p, at, 8, c, 120 + 16 * j, 8);
    }
  }

  method SetKey(page: array<Byte>, k: int, i: nat)
    requires page.Length == PAGE_SIZE && i < MAX_KEY_NUMBER && -I64 <= k < I64
    modifies page
    ensures KeyAt(page[..], i) == k && SameCells(old(page[..]), page[..], i, -1)
  {
    hide GetNumber, PutNumber, SameCells;
    ghost var p: Page := page[..];
    SetNumber(page, 128 + 16 * i, 8, Unsigned(k));
    KeyCell(p, i, k);
  }

  /** The page number to the left of key i; for the last one, to the right of the last key. */
  method SetLeft(page: array<Byte>, c: nat, i: nat)
    requires page.Length == PAGE_SIZE && i <= MAX_KEY_NUMBER && c < U64
    modifies page
    ensures ChildAt(page[..], i) == c && SameCells(old(page[..]), page[..], -1, i)
  {
    hide GetNumber, PutNumber, SameCells;
    ghost var p: Page := page[..];
    SetNumber(page, 120 + 16 * i, 8, c);
    ChildCell(p, i, c);
  }

  lemma HeaderCell(p: Page, at: nat, n: nat, v: nat)
    requires at + n <= 16
    ensures var q := PutNumber(p, at, n, v);
      && (forall i: nat :: i < MAX_KEY_NUMBER ==> KeyAt(q, i) == KeyAt(p, i))
      && (forall i: nat :: i <= MAX_KEY_NUMBER ==> ChildAt(q, i) == ChildAt(p, i))
  {
    hide GetNumber, PutNumber;
    forall j: nat | j < MAX_KEY_NUMBER ensures KeyAt(PutNumber(p, at, n, v), j) == KeyAt(p, j) {
      NumberElsewhere(p, at, n, v, 128 + 16 * j, 8);
    }
    forall j: nat | j <= MAX_KEY_NUMBER ensures ChildAt(PutNumber(p, at, n, v), j) == ChildAt(p, j) {
      NumberElsewhere(p, at, n, v, 120 + 16 * j, 8);
    }
  }

  ghost predicate SameKeysAndChildren(p: Page, q: Page) {
    && (forall i: nat :: i < MAX_KEY_NUMBER ==> KeyAt(q, i) == KeyAt(p, i))
    && (forall i: nat :: i <= MAX_KEY_NUMBER ==> ChildAt(q, i) == ChildAt(p, i))
  }

  lemma CountCell(p: Page, n: nat)
    requires n <= MAX_KEY_NUMBER
    ensures var q := PutNumber(p, 12, 4, n);
      KeyCount(q) == n && ParentOf(q) == ParentOf(p) && IsLeaf(q) == IsLeaf(p) && SameKeysAndChildren(p, q)
  {
    hide GetNumber, PutNumber, KeyAt, ChildAt;
    Radix8();
    NumberRoundTrip(p, 12, 4, n);
    NumberElsewhere(p, 12, 4, n, 0, 8);
    NumberElsewhere(p, 12, 4, n, 8, 4);
    HeaderCell(p, 12, 4, n);
  }

  method SetKeyCount(page: array<Byte>, n: nat)
    requires page.Length == PAGE_SIZE && n <= MAX_KEY_NUMBER
    modifies page
    ensures KeyCount(page[..]) == n && ParentOf(page[..]) == old(ParentOf(page[..]))
      && IsLeaf(page[..]) == old(IsLeaf(page[..]))
    ensures SameKeysAndChildren(old(page[..]), page[..])
  {
    hide GetNumber, PutNumber, SameKeysAndChildren;
    ghost var p: Page := page[..];
    SetNumber(page, 12, 4, n);
    CountCell(p, n);
  }

  lemma InnerHeaderCells(p: Page, count: nat, parent: nat)
    requires count <= MAX_KEY_NUMBER && parent < U64
    ensures
      var p1 := PutNumber(p, 8, 4, 0);
      var p2 := PutNumber(p1, 12, 4, count);
      var p3 := PutNumber(p2, 0, 8, parent);
      IsLeaf(p3) == 0 && KeyCount(p3) == count && ParentOf(p3) == parent && SameKeysAndChildren(p, p3)
  {
    hide GetNumber, PutNumber, KeyAt, ChildAt;
    Radix8();
    var p1 := PutNumber(p, 8, 4, 0);
    var p2 := PutNumber(p1, 12, 4, count);
    NumberRoundTrip(p, 8, 4, 0);
    NumberElsewhere(p1, 12, 4, count, 8, 4);
    NumberElsewhere(p2, 0, 8, parent, 8, 4);
    NumberRoundTrip(p1, 12, 4, count);
    NumberElsewhere(p2, 0, 8, parent, 12, 4);
    NumberRoundTrip(p2, 0, 8, parent);
    HeaderCell(p, 8, 4, 0);
    HeaderCell(p1, 12, 4, count);
    HeaderCell(p2, 0, 8, parent);
  }

  method SetInnerHeader(page: array<Byte>, count: nat, parent: nat)
    requires page.Length == PAGE_SIZE && count <= MAX_KEY_NUMBER && parent < U64
    modifies page
    ensures IsLeaf(page[..]) == 0 && KeyCount(page[..]) == count && ParentOf(page[..]) == parent
    ensures SameKeysAndChildren(old(page[..]), page[..])
  {
    hide GetNumber, PutNumber, SameKeysAndChildren;
    ghost var p: Page := page[..];
    SetNumber(page, 8, 4, 0);
    SetNumber(page, 12, 4, count);
    SetNumber(page, 0, 8, parent);
    InnerHeaderCells(p, count, parent);
  }

  // ----- The parent field of any page -----

  function WithParent(p: Page, parent: nat): Page {
    PutNumber(p, 0, 8, parent)
  }

  lemma LeafWithParent(p: Page, keys: seq<int>, vs: seq<Value>, parent: nat, next: nat, parent': nat)
    requires LeafOn(p, keys, vs, parent, next) && parent' < U64
    ensures LeafOn(WithParent(p, parent'), keys, vs, parent', next)
  {
    hide GetNumber, PutNumber;
    Radix8();
    NumberRoundTrip(p, 0, 8, parent');
    NumberElsewhere(p, 0, 8, parent', 8, 4);
    NumberElsewhere(p, 0, 8, parent', 12, 4);
    NumberElsewhere(p, 0, 8, parent', 112, 8);
    NumberElsewhere(p, 0, 8, parent', 120, 8);
    NumberRange(p, 0, 8, parent');
    ReadableSame(p, WithParent(p, parent'), keys, vs);
  }

  lemma InnerWithParent(p: Page, keys: seq<int>, cs: seq<nat>, parent: nat, parent': nat)
    requires InnerOn(p, keys, cs, parent) && parent' < U64
    ensures InnerOn(WithParent(p, parent'), keys, cs, parent')
  {
    hide GetNumber, PutNumber, KeyAt, ChildAt;
    Radix8();
    NumberRoundTrip(p, 0, 8, parent');
    NumberElsewhere(p, 0, 8, parent', 8, 4);
    NumberElsewhere(p, 0, 8, parent', 12, 4);
    HeaderCell(p, 0, 8, parent');
  }

  // ----- Searching -----

  /** Binary search for the child that is responsible for the key. */
  method FindChild(page: Page, count: nat, key: int, ghost keys: seq<int>, ghost cs: seq<nat>, ghost parent: nat)
    returns (i: nat)
    requires InnerOn(page, keys, cs, parent) && count == |keys| && G.Sorted(keys)
    ensures i <= count && (forall j :: 0 <= j < i ==> keys[j] <= key) && (forall j :: i <= j < count ==> key < keys[j])
  {
    hide GetNumber, KeyAt, ChildAt;
    var l: nat, r: nat := 0, count;
    while l < r
      invariant l <= r <= count
      invariant forall j :: 0 <= j < l ==> keys[j] <= key
      invariant forall j :: r <= j < count ==> key < keys[j]
    {
      var m := (l + r) / 2;
      if key >= KeyAt(page, m) {
        l := m + 1;
      } else {
        r := m;
      }
    }
    i := l;
  }

  /** get_left_index: the position of a child. */
  method FindLeftIndex(page: Page, left: nat, ghost keys: seq<int>, ghost cs: seq<nat>, ghost parent: nat)
    returns (i: nat)
    requires InnerOn(page, keys, cs, parent) && left in cs
    ensures i < |cs| && cs[i] == left
  {
    hide GetNumber, KeyAt, ChildAt;
    i := 0;
    ghost var x :| 0 <= x < |cs| && cs[x] == left;
    while i <= KeyCount(page) && ChildAt(page, i) != left
      invariant i <= x
      decreases |cs| - i
    {
      i := i + 1;
    }
  }

  // ----- Inserting with room -----

  /** db_insert_into_internal: the cells behind the gap move up one place, the last one first. */
  method InsertIntoInnerPage(page: array<Byte>, leftIndex: nat, key: int, right: nat, ghost keys: seq<int>,
      ghost cs: seq<nat>, ghost parent: nat)
    requires page.Length == PAGE_SIZE && InnerOn(page[..], keys, cs, parent) && |keys| < MAX_KEY_NUMBER
    requires leftIndex <= |keys| && -I64 <= key < I64 && right < U64
    modifies page
    ensures InnerOn(page[..], G.Ins(keys, leftIndex, key), G.Ins(cs, leftIndex + 1, right), parent)
  {
    hide GetNumber, KeyAt, ChildAt;
    ghost var n := |keys|;
    var count := KeyCount(page[..]);
    var i := count;
    while i > leftIndex
      invariant leftIndex <= i <= n
      invariant ParentOf(page[..]) == parent && IsLeaf(page[..]) == 0 && KeyCount(page[..]) == n
      invariant forall x :: 0 <= x < i ==> KeyAt(page[..], x) == keys[x]
      invariant forall x :: i < x <= n ==> KeyAt(page[..], x) == keys[x - 1]
      invariant forall x :: 0 <= x <= i ==> ChildAt(page[..], x) == cs[x]
      invariant forall x :: i + 1 < x <= n + 1 ==> ChildAt(page[..], x) == cs[x - 1]
    {
      SetLeft(page, ChildAt(page[..], i), i + 1);
      SetKey(page, KeyAt(page[..], i - 1), i);
      i := i - 1;
    }
    SetLeft(page, right, leftIndex + 1);
    SetKey(page, key, leftIndex);
    ghost var p: Page := page[..];
    SetKeyCount(page, count + 1);
    InsRanged(keys, leftIndex, key);
    Inserted(p, page[..], leftIndex, key, right, keys, cs, parent);
  }

  lemma Inserted(p: Page, q: Page, at: nat, key: int, right: nat, keys: seq<int>, cs: seq<nat>, parent: nat)
    requires |keys| < MAX_KEY_NUMBER && |cs| == |keys| + 1 && Numbers(cs) && right < U64 && at <= |keys|
    requires Ranged(G.Ins(keys, at, key))
    requires forall x :: 0 <= x < at ==> KeyAt(p, x) == keys[x]
    requires KeyAt(p, at) == key && forall x :: at < x <= |keys| ==> KeyAt(p, x) == keys[x - 1]
    requires forall x :: 0 <= x <= at ==> ChildAt(p, x) == cs[x]
    requires ChildAt(p, at + 1) == right && forall x :: at + 1 < x <= |keys| + 1 ==> ChildAt(p, x) == cs[x - 1]
    requires SameKeysAndChildren(p, q) && ParentOf(q) == parent && IsLeaf(q) == 0 && KeyCount(q) == |keys| + 1
    ensures InnerOn(q, G.Ins(keys, at, key), G.Ins(cs, at + 1, right), parent)
  {
    hide GetNumber, KeyAt, ChildAt;
    var ks, ds := G.Ins(keys, at, key), G.Ins(cs, at + 1, right);
    forall i | 0 <= i < |ks| ensures KeyAt(q, i) == ks[i] {
      assert ks[i] == if i < at then keys[i] else if i == at then key else keys[i - 1];
    }
    forall i | 0 <= i < |ds| ensures ChildAt(q, i) == ds[i] && ds[i] < U64 {
      assert ds[i] == if i < at + 1 then cs[i] else if i == at + 1 then right else cs[i - 1];
    }
  }

  // ----- Splitting -----

  const SPLIT := MAX_KEY_NUMBER / 2

  /** Copies keys and page numbers out of the page, leaving gaps for the new pair, and fills the gaps. */
  method GatherCells(page: Page, count: nat, leftIndex: nat, key: int, right: nat,
                     tempKeys: array<int>, tempPage: array<nat>,
                     ghost keys: seq<int>, ghost cs: seq<nat>, ghost parent: nat)
    requires InnerOn(page, keys, cs, parent) && count == |keys| && leftIndex <= count
    requires tempKeys.Length == count + 1 && tempPage.Length == count + 2
    modifies tempKeys, tempPage
    ensures tempKeys[..] == G.Ins(keys, leftIndex, key) && tempPage[..] == G.Ins(cs, leftIndex + 1, right)
  {
    hide GetNumber, KeyAt, ChildAt;
    var j := 0;
    for i := 0 to count + 1
      invariant j == if i <= leftIndex + 1 then i else i + 1
      invariant forall x :: 0 <= x < i ==> tempPage[if x < leftIndex + 1 then x else x + 1] == cs[x]
    {
      if j == leftIndex + 1 {
        j := j + 1;
      }
      tempPage[j] := ChildAt(page, i);
      j := j + 1;
    }
    j := 0;
    for i := 0 to count
      invariant j == if i <= leftIndex then i else i + 1
      invariant forall x :: 0 <= x < |cs| ==> tempPage[if x < leftIndex + 1 then x else x + 1] == cs[x]
      invariant forall x :: 0 <= x < i ==> tempKeys[if x < leftIndex then x else x + 1] == keys[x]
    {
      if j == leftIndex {
        j := j + 1;
      }
      tempKeys[j] := KeyAt(page, i);
      j := j + 1;
    }
    tempPage[leftIndex + 1] := right;
    tempKeys[leftIndex] := key;
    FilledGap(tempKeys[..], keys, leftIndex, key);
    FilledGap(tempPage[..], cs, leftIndex + 1, right);
  }

  lemma FilledGap<T>(t: seq<T>, s: seq<T>, at: nat, x: T)
    requires |t| == |s| + 1 && at <= |s| && t[at] == x
    requires forall i :: 0 <= i < |s| ==> t[if i < at then i else i + 1] == s[i]
    ensures t == G.Ins(s, at, x)
  {
    forall i | 0 <= i < |t| ensures t[i] == G.Ins(s, at, x)[i] {
      if i < at { assert t[if i < at then i else i + 1] == s[i]; }
      if i > at { assert t[if i - 1 < at then i - 1 else i] == s[i - 1]; }
    }
  }

  /** Writes the cells from `from` on into the page: n keys and the page numbers around them. */
  method WriteCells(page: array<Byte>, tempKeys: array<int>, tempPage: array<nat>, from: nat, n: nat)
    requires page.Length == PAGE_SIZE && n <= MAX_KEY_NUMBER && from + n <= tempKeys.Length
      && from + n < tempPage.Length
    requires Ranged(tempKeys[..]) && Numbers(tempPage[..])
    modifies page
    ensures forall x :: 0 <= x < n ==> KeyAt(page[..], x) == tempKeys[from + x]
    ensures forall x :: 0 <= x <= n ==> ChildAt(page[..], x) == tempPage[from + x]
    ensures ParentOf(page[..]) == old(ParentOf(page[..])) && IsLeaf(page[..]) == old(IsLeaf(page[..]))
      && KeyCount(page[..]) == old(KeyCount(page[..]))
  {
    hide GetNumber, KeyAt, ChildAt;
    assert forall x :: 0 <= x < tempKeys.Length ==> tempKeys[..][x] == tempKeys[x];
    assert forall x :: 0 <= x < tempPage.Length ==> tempPage[..][x] == tempPage[x];
    for j := 0 to n
      invariant forall x :: 0 <= x < j ==> KeyAt(page[..], x) == tempKeys[from + x]
      invariant forall x :: 0 <= x < j ==> ChildAt(page[..], x) == tempPage[from + x]
      invariant ParentOf(page[..]) == old(ParentOf(page[..])) && IsLeaf(page[..]) == old(IsLeaf(page[..]))
        && KeyCount(page[..]) == old(KeyCount(page[..]))
    {
      SetLeft(page, tempPage[from + j], j);
      SetKey(page, tempKeys[from + j], j);
    }
    SetLeft(page, tempPage[from + n], n);
  }

  lemma CellsAreInner(p: Page, q: Page, ks: seq<int>, cs: seq<nat>, parent: nat)
    requires |ks| <= MAX_KEY_NUMBER && |cs| == |ks| + 1 && Ranged(ks) && Numbers(cs)
    requires forall x :: 0 <= x < |ks| ==> KeyAt(p, x) == ks[x]
    requires forall x :: 0 <= x <= |ks| ==> ChildAt(p, x) == cs[x]
    requires SameKeysAndChildren(p, q) && ParentOf(q) == parent && IsLeaf(q) == 0 && KeyCount(q) == |ks|
    ensures InnerOn(q, ks, cs, parent)
  {
    hide GetNumber, KeyAt, ChildAt;
  }

  /**
   insert_into_node_after_splitting, up to the children's parent fields: the 249 keys are divided, and the one
   between the halves goes up.
   */
  method SplitInnerPage(page: array<Byte>, newPage: array<Byte>, leftIndex: nat, key: int, right: nat,
                        ghost keys: seq<int>, ghost cs: seq<nat>, ghost parent: nat)
    returns (kPrime: int)
    requires page.Length == PAGE_SIZE == newPage.Length && page != newPage && InnerOn(page[..], keys, cs, parent)
    requires |keys| == MAX_KEY_NUMBER && leftIndex <= |keys| && -I64 <= key < I64 && right < U64
    modifies page, newPage
    ensures
      var ks, ds := G.Ins(keys, leftIndex, key), G.Ins(cs, leftIndex + 1, right);
      var s := SPLIT - 1;
      && kPrime == ks[s]
      && InnerOn(page[..], ks[..s], ds[..s + 1], parent)
      && InnerOn(newPage[..], ks[s + 1..], ds[s + 1..], parent)
    ensures KeyCount(page[..]) == 123 && KeyCount(newPage[..]) == 125
  {
    hide GetNumber, KeyAt, ChildAt;
    ghost var ks, ds := G.Ins(keys, leftIndex, key), G.Ins(cs, leftIndex + 1, right);
    InsRanged(keys, leftIndex, key);
    InsNumbers(cs, leftIndex + 1, right);
    var tempKeys, tempPage := new int[MAX_KEY_NUMBER + 1], new nat[MAX_KEY_NUMBER + 2];
    GatherCells(page[..], KeyCount(page[..]), leftIndex, key, right, tempKeys, tempPage, keys, cs, parent);
    var s := SPLIT - 1;
    WriteCells(page, tempKeys, tempPage, 0, s);
    ghost var p: Page := page[..];
    SetKeyCount(page, s);
    kPrime := tempKeys[s];
    WriteCells(newPage, tempKeys, tempPage, s + 1, MAX_KEY_NUMBER - s);
    ghost var q: Page := newPage[..];
    NumberBound(page[..], 0);
    SetInnerHeader(newPage, MAX_KEY_NUMBER - s, ParentOf(page[..]));
    DividedCells(tempKeys[..], tempPage[..], ks, ds, s);
    CellsAreInner(p, page[..], ks[..s], ds[..s + 1], parent);
    CellsAreInner(q, newPage[..], ks[s + 1..], ds[s + 1..], parent);
  }

  lemma InsNumbers(cs: seq<nat>, at: nat, c: nat)
    requires Numbers(cs) && c < U64 && at <= |cs|
    ensures Numbers(G.Ins(cs, at, c))
  {
    var ds := G.Ins(cs, at, c);
    forall i | 0 <= i < |ds| ensures ds[i] < U64 {
      assert ds[i] == if i < at then cs[i] else if i == at then c else cs[i - 1];
    }
  }

  lemma DividedCells(tk: seq<int>, tp: seq<nat>, ks: seq<int>, ds: seq<nat>, s: nat)
    requires tk == ks && tp == ds && Ranged(ks) && Numbers(ds) && s < |ks| && |ds| == |ks| + 1
    ensures Ranged(ks[..s]) && Numbers(ds[..s + 1]) && Ranged(ks[s + 1..]) && Numbers(ds[s + 1..])
  {}

  // ----- A new root -----

  /** The root over two pages. */
  method MakeRootPage(page: array<Byte>, left: nat, key: int, right: nat)
    requires page.Length == PAGE_SIZE && -I64 <= key < I64 && left < U64 && right < U64
    modifies page
    ensures InnerOn(page[..], [key], [left, right], 0)
  {
    hide GetNumber, KeyAt, ChildAt;
    SetInnerHeader(page, 1, 0);
    SetKey(page, key, 0);
    SetLeft(page, left, 0);
    SetLeft(page, right, 1);
  }
}
