/**
 Leaf pages: behind a header of 128 bytes the slots grow upwards, from the end of the page the values grow
 downwards. A slot holds a key, a size and the offset of the value.
 */
module LeafLayout {
  import opened PageBytes

  type Value = v: seq<Byte> | 50 <= |v| <= 112 witness seq(50, _ => 0)

  const HEADER_SIZE := 128
  const SLOT_SIZE := 12
  const MAX_FREE_SPACE := 3968

  datatype Slot = Slot(key: int, size: nat, offset: nat)

  // ----- 64-bit keys -----

  function Unsigned(k: int): nat
    requires -I64 <= k < I64
  {
    if k >= 0 then k else k + U64
  }

  function Signed(v: nat): int {
    if v < I64 then v else v - U64
  }

  // ----- Slots and values -----

  function SlotAt(i: nat): nat {
    HEADER_SIZE + SLOT_SIZE * i
  }

  function GetSlot(p: Page, i: nat): Slot
    requires SlotAt(i + 1) <= PAGE_SIZE
  {
    Slot(Signed(GetNumber(p, SlotAt(i), 8)), GetNumber(p, SlotAt(i) + 8, 2), GetNumber(p, SlotAt(i) + 10, 2))
  }

  function PutSlot(p: Page, s: Slot, i: nat): Page
    requires SlotAt(i + 1) <= PAGE_SIZE && -I64 <= s.key < I64
  {
    var p1 := PutNumber(p, SlotAt(i), 8, Unsigned(s.key));
    var p2 := PutNumber(p1, SlotAt(i) + 8, 2, s.size);
    PutNumber(p2, SlotAt(i) + 10, 2, s.offset)
  }

  /** p and q have the same bytes from `from` up to `to`. */
  ghost predicate SameRange(p: Page, q: Page, from: nat, to: nat) {
    forall x :: from <= x < to && x < PAGE_SIZE ==> q[x] == p[x]
  }

  lemma PutRange(p: Page, offset: nat, s: seq<Byte>)
    requires offset + |s| <= PAGE_SIZE
    ensures SameRange(p, Put(p, offset, s), 0, offset) && SameRange(p, Put(p, offset, s), offset + |s|, PAGE_SIZE)
  {}

  lemma NumberRange(p: Page, offset: nat, n: nat, v: nat)
    requires offset + n <= PAGE_SIZE
    ensures SameRange(p, PutNumber(p, offset, n, v), 0, offset)
      && SameRange(p, PutNumber(p, offset, n, v), offset + n, PAGE_SIZE)
  {
    PutRange(p, offset, Encode(v, n));
  }

  lemma SameGet(p: Page, q: Page, from: nat, to: nat, offset: nat, n: nat)
    requires SameRange(p, q, from, to) && from <= offset && offset + n <= to && offset + n <= PAGE_SIZE
    ensures Get(q, offset, n) == Get(p, offset, n) && GetNumber(q, offset, n) == GetNumber(p, offset, n)
  {
    assert Get(q, offset, n) == Get(p, offset, n);
  }

  lemma SlotRoundTrip(p: Page, s: Slot, i: nat)
    requires SlotAt(i + 1) <= PAGE_SIZE && -I64 <= s.key < I64 && s.size < 0x1_0000 && s.offset < 0x1_0000
    ensures GetSlot(PutSlot(p, s, i), i) == s
    ensures SameRange(p, PutSlot(p, s, i), 0, SlotAt(i)) && SameRange(p, PutSlot(p, s, i), SlotAt(i + 1), PAGE_SIZE)
  {
    hide GetNumber, PutNumber, Radix;
    var at := SlotAt(i);
    var p1 := PutNumber(p, at, 8, Unsigned(s.key));
    var p2 := PutNumber(p1, at + 8, 2, s.size);
    var p3 := PutNumber(p2, at + 10, 2, s.offset);
    Radix8();
    NumberRoundTrip(p, at, 8, Unsigned(s.key));
    NumberRoundTrip(p1, at + 8, 2, s.size);
    NumberRoundTrip(p2, at + 10, 2, s.offset);
    NumberElsewhere(p1, at + 8, 2, s.size, at, 8);
    NumberElsewhere(p2, at + 10, 2, s.offset, at, 8);
    NumberElsewhere(p2, at + 10, 2, s.offset, at + 8, 2);
    NumberRange(p, at, 8, Unsigned(s.key));
    NumberRange(p1, at + 8, 2, s.size);
    NumberRange(p2, at + 10, 2, s.offset);
  }

  lemma SameSlot(p: Page, q: Page, from: nat, to: nat, i: nat)
    requires SameRange(p, q, from, to) && from <= SlotAt(i) && SlotAt(i + 1) <= to && SlotAt(i + 1) <= PAGE_SIZE
    ensures GetSlot(q, i) == GetSlot(p, i)
  {
    hide GetNumber;
    SameGet(p, q, from, to, SlotAt(i), 8);
    SameGet(p, q, from, to, SlotAt(i) + 8, 2);
    SameGet(p, q, from, to, SlotAt(i) + 10, 2);
  }

  // ----- Space -----

  /** The space the values take. */
  function Bytes(vs: seq<Value>): nat {
    if vs == [] then 0 else Bytes(vs[..|vs| - 1]) + |vs[|vs| - 1]|
  }

  /** The space the values and their slots take. */
  function Used(vs: seq<Value>): nat {
    Bytes(vs) + SLOT_SIZE * |vs|
  }

  lemma {:induction false} BytesConcat(a: seq<Value>, b: seq<Value>)
    ensures Bytes(a + b) == Bytes(a) + Bytes(b)
  {
    if b == [] {
      assert a + b == a;
    } else {
      BytesConcat(a, b[..|b| - 1]);
      assert (a + b)[..|a + b| - 1] == a + b[..|b| - 1];
    }
  }

  lemma BytesPrefix(vs: seq<Value>, i: nat)
    requires i <= |vs|
    ensures Bytes(vs[..i]) <= Bytes(vs)
    ensures i < |vs| ==> Bytes(vs[..i + 1]) == Bytes(vs[..i]) + |vs[i]|
  {
    BytesConcat(vs[..i], vs[i..]);
    assert vs[..i] + vs[i..] == vs;
    if i < |vs| { assert vs[..i + 1][..i] == vs[..i]; }
  }

  lemma BytesBetween(vs: seq<Value>, i: nat, j: nat)
    requires i <= j <= |vs|
    ensures Bytes(vs[..i]) <= Bytes(vs[..j])
  {
    BytesPrefix(vs[..j], i);
    assert vs[..j][..i] == vs[..i];
  }

  /** Where the i-th value starts. */
  function OffsetOf(vs: seq<Value>, i: nat): int
    requires i < |vs|
  {
    PAGE_SIZE - Bytes(vs[..i + 1])
  }

  /** Slots and values do not meet. */
  ghost predicate Fits(vs: seq<Value>) {
    Used(vs) <= MAX_FREE_SPACE
  }

  lemma OffsetBounds(vs: seq<Value>, i: nat)
    requires Fits(vs) && i < |vs|
    ensures SlotAt(|vs|) <= OffsetOf(vs, i) && OffsetOf(vs, i) + |vs[i]| <= PAGE_SIZE
    ensures OffsetOf(vs, i) + |vs[i]| == PAGE_SIZE - Bytes(vs[..i])
  {
    BytesPrefix(vs, i);
    BytesPrefix(vs, i + 1);
  }

  lemma {:induction false} AtMostSixtyFour(vs: seq<Value>)
    ensures Used(vs) >= 62 * |vs|
    ensures Used(vs) <= 124 * |vs|
  {
    if vs != [] { AtMostSixtyFour(vs[..|vs| - 1]); }
  }

  // ----- Packed pages -----

  /** The i-th entry is where packing puts it. */
  ghost predicate EntryAt(p: Page, keys: seq<int>, vs: seq<Value>, i: nat)
    requires |keys| == |vs| && Fits(vs) && i < |vs|
  {
    OffsetBounds(vs, i);
    GetSlot(p, i) == Slot(keys[i], |vs[i]|, OffsetOf(vs, i)) && Get(p, OffsetOf(vs, i), |vs[i]|) == vs[i]
  }

  ghost predicate Packed(p: Page, keys: seq<int>, vs: seq<Value>, n: nat) {
    |keys| == |vs| && Fits(vs) && n <= |vs| && forall i :: 0 <= i < n ==> EntryAt(p, keys, vs, i)
  }

  /** The page after the slot and the value of the i-th entry have been written. */
  function PutEntry(p: Page, keys: seq<int>, vs: seq<Value>, i: nat): Page
    requires |keys| == |vs| && Fits(vs) && i < |vs| && -I64 <= keys[i] < I64
  {
    OffsetBounds(vs, i);
    Put(PutSlot(p, Slot(keys[i], |vs[i]|, OffsetOf(vs, i)), i), OffsetOf(vs, i), vs[i])
  }

  /** Packing one more entry disturbs neither the header nor the entries packed before. */
  lemma PackNext(p: Page, keys: seq<int>, vs: seq<Value>, i: nat)
    requires Packed(p, keys, vs, i) && i < |vs| && -I64 <= keys[i] < I64
    ensures Packed(PutEntry(p, keys, vs, i), keys, vs, i + 1)
    ensures SameRange(p, PutEntry(p, keys, vs, i), 0, HEADER_SIZE)
  {
    hide GetSlot, PutSlot, Put, Get, Bytes;
    OffsetBounds(vs, i);
    var s, at := Slot(keys[i], |vs[i]|, OffsetOf(vs, i)), OffsetOf(vs, i);
    var p1 := PutSlot(p, s, i);
    var p2 := Put(p1, at, vs[i]);
    SlotRoundTrip(p, s, i);
    PutRange(p1, at, vs[i]);
    PutGet(p1, at, vs[i]);
    forall j | 0 <= j <= i ensures EntryAt(p2, keys, vs, j) { PackKeeps(p, keys, vs, i, j); }
  }

  lemma PackKeeps(p: Page, keys: seq<int>, vs: seq<Value>, i: nat, j: nat)
    requires Packed(p, keys, vs, i) && i < |vs| && -I64 <= keys[i] < I64 && j <= i
    ensures EntryAt(PutEntry(p, keys, vs, i), keys, vs, j)
  {
    hide GetSlot, PutSlot, Put, Get, Bytes;
    OffsetBounds(vs, i);
    OffsetBounds(vs, j);
    var s, at := Slot(keys[i], |vs[i]|, OffsetOf(vs, i)), OffsetOf(vs, i);
    var p1 := PutSlot(p, s, i);
    var p2 := Put(p1, at, vs[i]);
    SlotRoundTrip(p, s, i);
    PutRange(p1, at, vs[i]);
    PutGet(p1, at, vs[i]);
    SameSlot(p1, p2, 0, at, j);
    if j < i {
      assert EntryAt(p, keys, vs, j);
      SameSlot(p, p1, 0, SlotAt(i), j);
      BytesBetween(vs, j + 1, i);
      SameGet(p, p1, SlotAt(i + 1), PAGE_SIZE, OffsetOf(vs, j), |vs[j]|);
      SameGet(p1, p2, at + |vs[i]|, PAGE_SIZE, OffsetOf(vs, j), |vs[j]|);
    }
  }

  /** The i-th slot leads to the i-th value, wherever behind the slots it stands. */
  ghost predicate EntryReadable(p: Page, keys: seq<int>, vs: seq<Value>, i: nat)
    requires |keys| == |vs| && Fits(vs) && i < |vs|
  {
    AtMostSixtyFour(vs);
    var s := GetSlot(p, i);
    && s.key == keys[i] && s.size == |vs[i]|
    && SlotAt(|vs|) <= s.offset && s.offset + s.size <= PAGE_SIZE && Get(p, s.offset, s.size) == vs[i]
  }

  ghost predicate Readable(p: Page, keys: seq<int>, vs: seq<Value>) {
    |keys| == |vs| && Fits(vs) && forall i :: 0 <= i < |vs| ==> EntryReadable(p, keys, vs, i)
  }

  lemma PackedIsReadable(p: Page, keys: seq<int>, vs: seq<Value>)
    requires Packed(p, keys, vs, |vs|)
    ensures Readable(p, keys, vs)
  {
    hide GetSlot, Get, Bytes;
    forall i | 0 <= i < |vs| ensures EntryReadable(p, keys, vs, i) {
      assert EntryAt(p, keys, vs, i);
      OffsetBounds(vs, i);
    }
  }

  lemma ReadableSame(p: Page, q: Page, keys: seq<int>, vs: seq<Value>)
    requires Readable(p, keys, vs) && SameRange(p, q, HEADER_SIZE, PAGE_SIZE)
    ensures Readable(q, keys, vs)
  {
    hide GetSlot, Get, Bytes;
    AtMostSixtyFour(vs);
    forall i | 0 <= i < |vs| ensures EntryReadable(q, keys, vs, i) {
      assert EntryReadable(p, keys, vs, i);
      SameSlot(p, q, HEADER_SIZE, PAGE_SIZE, i);
      SameGet(p, q, HEADER_SIZE, PAGE_SIZE, GetSlot(p, i).offset, |vs[i]|);
    }
  }

  /** Writing the header leaves the entries alone. */
  lemma PackedSame(p: Page, q: Page, keys: seq<int>, vs: seq<Value>)
    requires Packed(p, keys, vs, |vs|) && SameRange(p, q, HEADER_SIZE, PAGE_SIZE)
    ensures Packed(q, keys, vs, |vs|)
  {
    hide GetSlot, Get, Bytes;
    forall i | 0 <= i < |vs| ensures EntryAt(q, keys, vs, i) {
      assert EntryAt(p, keys, vs, i);
      OffsetBounds(vs, i);
      SameSlot(p, q, HEADER_SIZE, PAGE_SIZE, i);
      SameGet(p, q, HEADER_SIZE, PAGE_SIZE, OffsetOf(vs, i), |vs[i]|);
    }
  }

  /** The entries of a packed page determine what is read from it: distinct entries overlap nowhere. */
  lemma EntriesDisjoint(vs: seq<Value>, i: nat, j: nat)
    requires Fits(vs) && i < j < |vs|
    ensures SlotAt(|vs|) <= OffsetOf(vs, j) && OffsetOf(vs, j) + |vs[j]| <= OffsetOf(vs, i)
  {
    OffsetBounds(vs, j);
    BytesBetween(vs, i + 1, j);
  }

  // ----- Where a leaf splits -----

  /** The first entry, from i on, that would bring the left page to half its space. */
  function SplitFrom(vs: seq<Value>, i: nat): (s: nat)
    requires i <= |vs|
    ensures i <= s <= |vs|
    decreases |vs| - i
  {
    if i == |vs| || Used(vs[..i + 1]) >= MAX_FREE_SPACE / 2 then i else SplitFrom(vs, i + 1)
  }

  lemma {:induction false} SplitFromLimit(vs: seq<Value>, i: nat)
    requires i <= |vs| && Used(vs[..i]) < MAX_FREE_SPACE / 2
    ensures var s := SplitFrom(vs, i);
      Used(vs[..s]) < MAX_FREE_SPACE / 2 && (s < |vs| ==> Used(vs[..s + 1]) >= MAX_FREE_SPACE / 2)
    decreases |vs| - i
  {
    if i < |vs| && Used(vs[..i + 1]) < MAX_FREE_SPACE / 2 { SplitFromLimit(vs, i + 1); }
  }

  lemma UsedSplits(vs: seq<Value>, s: nat)
    requires s <= |vs|
    ensures Used(vs) == Used(vs[..s]) + Used(vs[s..])
  {
    BytesConcat(vs[..s], vs[s..]);
    assert vs[..s] + vs[s..] == vs;
  }

  /**
   A leaf splits when one more entry does not fit. Both pages then hold at least one entry, fit, and have less
   than 2500 bytes of free space; at most 65 entries are ever gathered.
   */
  lemma SplitBounds(vs: seq<Value>)
    requires vs != [] && MAX_FREE_SPACE < Used(vs)
    requires exists i :: 0 <= i < |vs| && Used(vs) - (SLOT_SIZE + |vs[i]|) <= MAX_FREE_SPACE
    ensures
      var s := SplitFrom(vs, 0);
      && 0 < s < |vs| <= 65
      && 1860 <= Used(vs[..s]) <= 1983 && 1986 <= Used(vs[s..]) <= 2232
      && MAX_FREE_SPACE - Used(vs[..s]) < 2500 && MAX_FREE_SPACE - Used(vs[s..]) < 2500
  {
    var i :| 0 <= i < |vs| && Used(vs) - (SLOT_SIZE + |vs[i]|) <= MAX_FREE_SPACE;
    assert vs[..0] == [];
    SplitFromLimit(vs, 0);
    var s := SplitFrom(vs, 0);
    if s == |vs| { assert vs[..s] == vs; }
    BytesPrefix(vs, s);
    UsedSplits(vs, s);
    OthersUse(vs, i);
  }

  lemma OthersUse(vs: seq<Value>, i: nat)
    requires i < |vs|
    ensures Used(vs) - (SLOT_SIZE + |vs[i]|) >= 62 * (|vs| - 1)
  {
    UsedSplits(vs, i);
    UsedSplits(vs[i..], 1);
    assert vs[i..][..1] == [vs[i]] && vs[i..][1..] == vs[i + 1..];
    assert Bytes([vs[i]]) == |vs[i]| by { assert [vs[i]][..0] == []; }
    AtMostSixtyFour(vs[..i]);
    AtMostSixtyFour(vs[i + 1..]);
  }

  /** A longer list with the same beginning leaves what has been packed in place. */
  lemma PackedLonger(p: Page, keys: seq<int>, vs: seq<Value>, n: nat, keys': seq<int>, vs': seq<Value>)
    requires Packed(p, keys, vs, n) && |keys'| == |vs'| && Fits(vs') && n <= |vs'|
    requires keys'[..n] == keys[..n] && vs'[..n] == vs[..n]
    ensures Packed(p, keys', vs', n)
  {
    hide GetSlot, Get, Bytes;
    forall i | 0 <= i < n ensures EntryAt(p, keys', vs', i) {
      assert EntryAt(p, keys, vs, i);
      assert keys'[i] == keys'[..n][i] == keys[..n][i] && vs'[i] == vs'[..n][i] == vs[..n][i];
      assert vs'[..i + 1] == vs'[..n][..i + 1] == vs[..n][..i + 1] == vs[..i + 1];
    }
  }
}
