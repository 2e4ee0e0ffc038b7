/**
 The leaf pages of the on-disk tree: the setters of page.cc over a page's bytes, and the two ways newbpt.cc puts
 an entry into a leaf, by packing the page anew or by dividing its entries between two pages.
 */
module LeafPage {
  import opened PageBytes
  import opened LeafLayout
  import G = BPlusGraph
  import S = BPlusSplit

  const MAX_SLOT_NUMBER := 64

  // ----- Fields of the page header -----

  function ParentOf(p: Page): nat { GetNumber(p, 0, 8) }

  function IsLeaf(p: Page): nat { GetNumber(p, 8, 4) }

  function KeyCount(p: Page): nat { GetNumber(p, 12, 4) }

  function FreeSpace(p: Page): nat { GetNumber(p, 112, 8) }

  function Sibling(p: Page): nat { GetNumber(p, 120, 8) }

  /** The page is a leaf with these entries. */
  ghost predicate LeafOn(p: Page, keys: seq<int>, vs: seq<Value>, parent: nat, next: nat) {
    && Readable(p, keys, vs) && Ranged(keys)
    && ParentOf(p) == parent && IsLeaf(p) == 1 && KeyCount(p) == |keys| && Sibling(p) == next
    && FreeSpace(p) == MAX_FREE_SPACE - Used(vs)
  }

  ghost predicate Ranged(keys: seq<int>) {
    forall i :: 0 <= i < |keys| ==> -I64 <= keys[i] < I64
  }

  // ----- Setters -----

  /** memmove into a page. */
  method CopyIn(page: array<Byte>, offset: nat, bytes: seq<Byte>)
    requires page.Length == PAGE_SIZE && offset + |bytes| <= PAGE_SIZE
    modifies page
    ensures page[..] == Put(old(page[..]), offset, bytes)
  {
    for i := 0 to |bytes|
      invariant page[..] == old(page[..])[..offset] + bytes[..i] + old(page[..])[offset + i..]
    {
      page[offset + i] := bytes[i];
    }
  }

  method SetNumber(page: array<Byte>, offset: nat, n: nat, v: nat)
    requires page.Length == PAGE_SIZE && offset + n <= PAGE_SIZE
    modifies page
    ensures page[..] == PutNumber(old(page[..]), offset, n, v)
  {
    CopyIn(page, offset, Encode(v, n));
  }

  method SetSlot(page: array<Byte>, s: Slot, i: nat)
    requires page.Length == PAGE_SIZE && SlotAt(i + 1) <= PAGE_SIZE && -I64 <= s.key < I64
    modifies page
    ensures page[..] == PutSlot(old(page[..]), s, i)
  {
    SetNumber(page, SlotAt(i), 8, Unsigned(s.key));
    SetNumber(page, SlotAt(i) + 8, 2, s.size);
    SetNumber(page, SlotAt(i) + 10, 2, s.offset);
  }

  method SetValue(page: array<Byte>, s: Slot, value: seq<Byte>)
    requires page.Length == PAGE_SIZE && s.offset + s.size <= PAGE_SIZE && |value| == s.size
    modifies page
    ensures page[..] == Put(old(page[..]), s.offset, value)
  {
    CopyIn(page, s.offset, value);
  }

  /** Key count and free space are written after the entries. */
  method SetCounts(page: array<Byte>, count: nat, space: nat)
    requires page.Length == PAGE_SIZE && count < 0x1_0000_0000 && space < U64
    modifies page
    ensures KeyCount(page[..]) == count && FreeSpace(page[..]) == space
    ensures ParentOf(page[..]) == old(ParentOf(page[..])) && IsLeaf(page[..]) == old(IsLeaf(page[..]))
      && Sibling(page[..]) == old(Sibling(page[..]))
    ensures SameRange(old(page[..]), page[..], HEADER_SIZE, PAGE_SIZE)
  {
    hide GetNumber, PutNumber;
    ghost var p: Page := page[..];
    SetNumber(page, 12, 4, count);
    ghost var q: Page := page[..];
    SetNumber(page, 112, 8, space);
    CountFields(p, count, q, space);
  }

  lemma CountFields(p: Page, count: nat, q: Page, space: nat)
    requires q == PutNumber(p, 12, 4, count) && count < 0x1_0000_0000 && space < U64
    ensures var r := PutNumber(q, 112, 8, space);
      && KeyCount(r) == count && FreeSpace(r) == space
      && ParentOf(r) == ParentOf(p) && IsLeaf(r) == IsLeaf(p) && Sibling(r) == Sibling(p)
      && SameRange(p, r, HEADER_SIZE, PAGE_SIZE)
  {
    hide GetNumber, PutNumber;
    Radix8();
    NumberRoundTrip(p, 12, 4, count);
    NumberRoundTrip(q, 112, 8, space);
    NumberElsewhere(q, 112, 8, space, 12, 4);
    NumberElsewhere(p, 12, 4, count, 0, 8);
    NumberElsewhere(q, 112, 8, space, 0, 8);
    NumberElsewhere(p, 12, 4, count, 8, 4);
    NumberElsewhere(q, 112, 8, space, 8, 4);
    NumberElsewhere(p, 12, 4, count, 120, 8);
    NumberElsewhere(q, 112, 8, space, 120, 8);
    NumberRange(p, 12, 4, count);
    NumberRange(q, 112, 8, space);
  }

  // ----- Searching and gathering -----

  lemma EntryRead(p: Page, keys: seq<int>, vs: seq<Value>, parent: nat, next: nat, i: nat)
    requires LeafOn(p, keys, vs, parent, next) && i < |keys|
    ensures |keys| == |vs| <= MAX_SLOT_NUMBER && SlotAt(i + 1) <= PAGE_SIZE
    ensures var s := GetSlot(p, i);
      s.key == keys[i] && s.size == |vs[i]| && s.offset + s.size <= PAGE_SIZE && Get(p, s.offset, s.size) == vs[i]
  {
    hide GetSlot, Get;
    assert EntryReadable(p, keys, vs, i);
    AtMostSixtyFour(vs);
  }

  /** Binary search for the first slot whose key is not below `key`. */
  method FindSlot(page: Page, count: nat, key: int, ghost keys: seq<int>, ghost vs: seq<Value>, ghost parent: nat,
      ghost next: nat)
    returns (at: nat)
    requires LeafOn(page, keys, vs, parent, next) && count == |keys| && G.Sorted(keys)
    ensures at <= count && (forall i :: 0 <= i < at ==> keys[i] < key)
    ensures forall i :: at <= i < count ==> keys[i] >= key
  {
    hide LeafOn, GetSlot, Get;
    var l: int, r: int := 0, count - 1;
    while l <= r
      invariant 0 <= l <= r + 1 <= count
      invariant forall i :: 0 <= i < l ==> keys[i] < key
      invariant forall i :: r < i < count ==> keys[i] >= key
    {
      var m := (l + r) / 2;
      EntryRead(page, keys, vs, parent, next, m);
      if GetSlot(page, m).key < key {
        l := m + 1;
      } else {
        r := m - 1;
      }
    }
    at := l;
  }

  /** The gathered slots and values are the entries of keys and vs, up to n; offsets are set later. */
  ghost predicate Gathered(slots: seq<Slot>, values: seq<Value>, keys: seq<int>, vs: seq<Value>) {
    && |keys| == |vs| <= |slots| == |values|
    && forall i :: 0 <= i < |vs| ==> slots[i].key == keys[i] && slots[i].size == |vs[i]| && values[i] == vs[i]
  }

  /** Copies the entries out of the page, leaving a gap at `at`, and puts the new entry into the gap. */
  method Gather(page: Page, count: nat, at: nat, key: int, value: Value, tempSlot: array<Slot>, tempValue: array<Value>,
                ghost keys: seq<int>, ghost vs: seq<Value>, ghost parent: nat, ghost next: nat)
    requires LeafOn(page, keys, vs, parent, next) && count == |keys| == |vs| && at <= count
    requires tempSlot.Length == tempValue.Length > count
    modifies tempSlot, tempValue
    ensures Gathered(tempSlot[..], tempValue[..], G.Ins(keys, at, key), G.Ins(vs, at, value))
  {
    hide LeafOn, GetSlot, Get;
    var j := 0;
    for i := 0 to count
      invariant j == if i <= at then i else i + 1
      invariant forall x :: 0 <= x < i ==>
        var y := if x < at then x else x + 1;
        tempSlot[y].key == keys[x] && tempSlot[y].size == |vs[x]| && tempValue[y] == vs[x]
    {
      if j == at {
        j := j + 1;
      }
      EntryRead(page, keys, vs, parent, next, i);
      tempSlot[j] := GetSlot(page, i);
      tempValue[j] := Get(page, tempSlot[j].offset, tempSlot[j].size);
      j := j + 1;
    }
    tempSlot[at] := Slot(key, |value|, 0);
    tempValue[at] := value;
    ghost var ks, ws := G.Ins(keys, at, key), G.Ins(vs, at, value);
    forall i | 0 <= i < |ws| ensures tempSlot[i].key == ks[i] && tempSlot[i].size == |ws[i]| && tempValue[i] == ws[i] {
      if i < at { assert ks[i] == keys[i] && ws[i] == vs[i]; }
      if i > at { assert ks[i] == keys[i - 1] && ws[i] == vs[i - 1]; }
    }
  }

  // ----- Packing -----

  lemma InsUsed(vs: seq<Value>, at: nat, value: Value)
    requires at <= |vs|
    ensures Used(G.Ins(vs, at, value)) == Used(vs) + SLOT_SIZE + |value|
  {
    var ws := G.Ins(vs, at, value);
    UsedSplits(vs, at);
    UsedSplits(ws, at);
    UsedSplits(ws[at..], 1);
    assert ws[..at] == vs[..at] && ws[at..][..1] == [value] && ws[at..][1..] == vs[at..];
    assert Bytes([value]) == |value| by { assert [value][..0] == []; }
    assert |ws| == |vs| + 1;
  }

  lemma InsRanged(keys: seq<int>, at: nat, key: int)
    requires Ranged(keys) && -I64 <= key < I64 && at <= |keys|
    ensures Ranged(G.Ins(keys, at, key))
  {
    var ks := G.Ins(keys, at, key);
    forall i | 0 <= i < |ks| ensures -I64 <= ks[i] < I64 {
      assert ks[i] == if i < at then keys[i] else if i == at then key else keys[i - 1];
    }
  }

  /** Writes the slot and the value of one entry. */
  method PackEntry(page: array<Byte>, key: int, value: Value, offset: nat, i: nat, ghost keys: seq<int>,
      ghost vs: seq<Value>)
    requires page.Length == PAGE_SIZE && |keys| == |vs| && Fits(vs) && Ranged(keys)
    requires i < |vs| && key == keys[i] && value == vs[i] && offset == OffsetOf(vs, i)
    modifies page
    ensures page[..] == PutEntry(old(page[..]), keys, vs, i)
  {
    hide PutSlot, Put, Bytes;
    AtMostSixtyFour(vs);
    OffsetBounds(vs, i);
    var s := Slot(key, |value|, offset);
    SetSlot(page, s, i);
    SetValue(page, s, value);
  }

  /** A packed page whose header fits its entries is a leaf. */
  lemma PackedIsLeaf(p: Page, q: Page, keys: seq<int>, vs: seq<Value>, parent: nat, next: nat)
    requires Packed(p, keys, vs, |vs|) && Ranged(keys) && ParentOf(p) == parent && IsLeaf(p) == 1 && Sibling(p) == next
    requires KeyCount(q) == |keys| && FreeSpace(q) == MAX_FREE_SPACE - Used(vs)
    requires ParentOf(q) == ParentOf(p) && IsLeaf(q) == IsLeaf(p) && Sibling(q) == Sibling(p)
    requires SameRange(p, q, HEADER_SIZE, PAGE_SIZE)
    ensures LeafOn(q, keys, vs, parent, next) && Packed(q, keys, vs, |vs|)
  {
    hide GetNumber;
    PackedSame(p, q, keys, vs);
    PackedIsReadable(q, keys, vs);
  }

  lemma HeaderSame(p: Page, q: Page)
    requires SameRange(p, q, 0, HEADER_SIZE)
    ensures ParentOf(q) == ParentOf(p) && IsLeaf(q) == IsLeaf(p) && KeyCount(q) == KeyCount(p)
    ensures FreeSpace(q) == FreeSpace(p) && Sibling(q) == Sibling(p)
  {
    SameGet(p, q, 0, HEADER_SIZE, 0, 8);
    SameGet(p, q, 0, HEADER_SIZE, 8, 4);
    SameGet(p, q, 0, HEADER_SIZE, 12, 4);
    SameGet(p, q, 0, HEADER_SIZE, 112, 8);
    SameGet(p, q, 0, HEADER_SIZE, 120, 8);
  }

  lemma SameTrans(p: Page, q: Page, r: Page, from: nat, to: nat)
    requires SameRange(p, q, from, to) && SameRange(q, r, from, to)
    ensures SameRange(p, r, from, to)
  {}

  /** Packs all gathered entries into the page. */
  method PackAll(page: array<Byte>, tempSlot: array<Slot>, tempValue: array<Value>, n: nat, ghost keys: seq<int>,
      ghost vs: seq<Value>)
    requires page.Length == PAGE_SIZE && n == |vs| && Fits(vs) && Ranged(keys)
    requires Gathered(tempSlot[..], tempValue[..], keys, vs)
    modifies page
    ensures Packed(page[..], keys, vs, n) && SameRange(old(page[..]), page[..], 0, HEADER_SIZE)
  {
    hide EntryAt, PutEntry, Bytes, Used;
    ghost var before: Page := page[..];
    var newOffset: int := PAGE_SIZE;
    NothingUsed(vs);
    for i := 0 to n
      invariant newOffset == PAGE_SIZE - Bytes(vs[..i])
      invariant Packed(page[..], keys, vs, i) && SameRange(before, page[..], 0, HEADER_SIZE)
    {
      OffsetBounds(vs, i);
      BytesPrefix(vs, i);
      ghost var p: Page := page[..];
      PackNext(p, keys, vs, i);
      newOffset := newOffset - tempSlot[i].size;
      PackEntry(page, tempSlot[i].key, tempValue[i], newOffset, i, keys, vs);
      SameTrans(before, p, page[..], 0, HEADER_SIZE);
    }
  }

  lemma NothingUsed(vs: seq<Value>)
    ensures Bytes(vs[..0]) == 0 && vs[..0] == []
  {}

  /** db_insert_into_leaf: the page is packed anew, with the new entry in its place. */
  method InsertIntoLeafPage(page: array<Byte>, key: int, value: Value, ghost keys: seq<int>, ghost vs: seq<Value>,
      ghost parent: nat, ghost next: nat)
    returns (ghost at: nat)
    requires page.Length == PAGE_SIZE && LeafOn(page[..], keys, vs, parent, next)
    requires G.Sorted(keys) && key !in keys && -I64 <= key < I64 && SLOT_SIZE + |value| <= FreeSpace(page[..])
    modifies page
    ensures S.Slot(keys, at, key)
    ensures LeafOn(page[..], G.Ins(keys, at, key), G.Ins(vs, at, value), parent, next)
    ensures Packed(page[..], G.Ins(keys, at, key), G.Ins(vs, at, value), |vs| + 1)
  {
    hide GetNumber, EntryAt, Bytes;
    ghost var before: Page := page[..];
    var count := KeyCount(page[..]);
    AtMostSixtyFour(vs);
    var insertionPoint := FindSlot(page[..], count, key, keys, vs, parent, next);
    at := insertionPoint;
    SlotFound(keys, at, key);
    ghost var ks, ws := G.Ins(keys, at, key), G.Ins(vs, at, value);
    InsUsed(vs, at, value);
    InsRanged(keys, at, key);
    AtMostSixtyFour(ws);
    var tempSlot := new Slot[MAX_SLOT_NUMBER](_ => Slot(0, 0, 0));
    var tempValue := new Value[MAX_SLOT_NUMBER];
    Gather(page[..], count, insertionPoint, key, value, tempSlot, tempValue, keys, vs, parent, next);
    PackAll(page, tempSlot, tempValue, count + 1, ks, ws);
    ghost var packed: Page := page[..];
    HeaderSame(before, packed);
    var space := FreeSpace(page[..]);
    SetCounts(page, count + 1, space - SLOT_SIZE - |value|);
    PackedIsLeaf(packed, page[..], ks, ws, parent, next);
  }

  lemma SlotFound(keys: seq<int>, at: nat, key: int)
    requires at <= |keys| && key !in keys
    requires (forall i :: 0 <= i < at ==> keys[i] < key) && (forall i :: at <= i < |keys| ==> keys[i] >= key)
    ensures S.Slot(keys, at, key)
  {
    assert at < |keys| ==> keys[at] in keys;
  }

  // ----- Splitting -----

  /** Packs gathered entries into the left page until it would be half full. */
  method PackLeft(page: array<Byte>, tempSlot: array<Slot>, tempValue: array<Value>, n: nat, ghost keys: seq<int>,
      ghost vs: seq<Value>)
    returns (i: nat, allocSpace: nat)
    requires page.Length == PAGE_SIZE && n == |vs| && Ranged(keys)
    requires Gathered(tempSlot[..], tempValue[..], keys, vs)
    modifies page
    ensures i == SplitFrom(vs, 0) && allocSpace == Used(vs[..i]) < MAX_FREE_SPACE / 2 && i <= |keys|
    ensures Packed(page[..], keys[..i], vs[..i], i) && SameRange(old(page[..]), page[..], 0, HEADER_SIZE)
  {
    hide EntryAt, PutEntry, Bytes;
    ghost var before: Page := page[..];
    allocSpace := 0;
    var newOffset: int := PAGE_SIZE;
    NothingUsed(vs);
    i := 0;
    while i < n
      invariant i <= n && newOffset == PAGE_SIZE - Bytes(vs[..i]) && allocSpace == Used(vs[..i]) < MAX_FREE_SPACE / 2
      invariant SplitFrom(vs, 0) == SplitFrom(vs, i)
      invariant Packed(page[..], keys[..i], vs[..i], i) && SameRange(before, page[..], 0, HEADER_SIZE)
    {
      BytesPrefix(vs, i);
      if allocSpace + SLOT_SIZE + tempSlot[i].size >= MAX_FREE_SPACE / 2 {
        break;
      }
      ghost var p: Page := page[..];
      ghost var ks, ws := keys[..i + 1], vs[..i + 1];
      PackedLonger(p, keys[..i], vs[..i], i, ks, ws);
      OffsetIs(vs, i);
      PackNext(p, ks, ws, i);
      newOffset := newOffset - tempSlot[i].size;
      PackEntry(page, tempSlot[i].key, tempValue[i], newOffset, i, ks, ws);
      SameTrans(before, p, page[..], 0, HEADER_SIZE);
      allocSpace := allocSpace + SLOT_SIZE + tempSlot[i].size;
      i := i + 1;
    }
  }

  lemma OffsetIs(vs: seq<Value>, i: nat)
    requires i < |vs|
    ensures OffsetOf(vs[..i + 1], i) == OffsetOf(vs, i) && vs[..i + 1][..i + 1] == vs[..i + 1]
  {
    assert vs[..i + 1][..i + 1] == vs[..i + 1];
  }

  /** Packs the gathered entries from `from` on into the right page. */
  method PackRight(page: array<Byte>, tempSlot: array<Slot>, tempValue: array<Value>, from: nat, n: nat,
      ghost keys: seq<int>, ghost vs: seq<Value>)
    returns (allocSpace: nat)
    requires page.Length == PAGE_SIZE && from <= n == |vs| == |keys| && Ranged(keys) && Fits(vs[from..])
    requires Gathered(tempSlot[..], tempValue[..], keys, vs)
    modifies page
    ensures allocSpace == Used(vs[from..])
    ensures Packed(page[..], keys[from..], vs[from..], n - from)
  {
    hide EntryAt, PutEntry, Bytes;
    ghost var ks, ws := keys[from..], vs[from..];
    allocSpace := 0;
    var newOffset: int := PAGE_SIZE;
    NothingUsed(ws);
    var j := 0;
    for i := from to n
      invariant j == i - from && newOffset == PAGE_SIZE - Bytes(ws[..j]) && allocSpace == Used(ws[..j])
      invariant Packed(page[..], ks, ws, j)
    {
      BytesPrefix(ws, j);
      OffsetBounds(ws, j);
      ghost var p: Page := page[..];
      PackNext(p, ks, ws, j);
      newOffset := newOffset - tempSlot[i].size;
      PackEntry(page, tempSlot[i].key, tempValue[i], newOffset, j, ks, ws);
      allocSpace := allocSpace + SLOT_SIZE + tempSlot[i].size;
      j := j + 1;
    }
    assert ws[..j] == ws;
  }

  /** The header of a new leaf. */
  method SetLeafHeader(page: array<Byte>, space: nat, count: nat, parent: nat, next: nat)
    requires page.Length == PAGE_SIZE && count < 0x1_0000_0000 && space < U64 && parent < U64 && next < U64
    modifies page
    ensures KeyCount(page[..]) == count && FreeSpace(page[..]) == space && IsLeaf(page[..]) == 1
    ensures ParentOf(page[..]) == parent && Sibling(page[..]) == next
    ensures SameRange(old(page[..]), page[..], HEADER_SIZE, PAGE_SIZE)
  {
    hide GetNumber, PutNumber;
    ghost var p: Page := page[..];
    SetNumber(page, 112, 8, space);
    SetNumber(page, 8, 4, 1);
    SetNumber(page, 12, 4, count);
    SetNumber(page, 0, 8, parent);
    SetNumber(page, 120, 8, next);
    NewHeaderFields(p, space, count, parent, next);
  }

  lemma NewHeaderFields(p: Page, space: nat, count: nat, parent: nat, next: nat)
    requires count < 0x1_0000_0000 && space < U64 && parent < U64 && next < U64
    ensures
      var p1 := PutNumber(p, 112, 8, space);
      var p2 := PutNumber(p1, 8, 4, 1);
      var p3 := PutNumber(p2, 12, 4, count);
      var p4 := PutNumber(p3, 0, 8, parent);
      var p5 := PutNumber(p4, 120, 8, next);
      && KeyCount(p5) == count && FreeSpace(p5) == space && IsLeaf(p5) == 1 && ParentOf(p5) == parent
      && Sibling(p5) == next
      && SameRange(p, p5, HEADER_SIZE, PAGE_SIZE)
  {
    hide GetNumber, PutNumber;
    Radix8();
    var p1 := PutNumber(p, 112, 8, space);
    var p2 := PutNumber(p1, 8, 4, 1);
    var p3 := PutNumber(p2, 12, 4, count);
    var p4 := PutNumber(p3, 0, 8, parent);
    NumberRoundTrip(p, 112, 8, space);
    NumberElsewhere(p1, 8, 4, 1, 112, 8);
    NumberElsewhere(p2, 12, 4, count, 112, 8);
    NumberElsewhere(p3, 0, 8, parent, 112, 8);
    NumberElsewhere(p4, 120, 8, next, 112, 8);
    NumberRoundTrip(p1, 8, 4, 1);
    NumberElsewhere(p2, 12, 4, count, 8, 4);
    NumberElsewhere(p3, 0, 8, parent, 8, 4);
    NumberElsewhere(p4, 120, 8, next, 8, 4);
    NumberRoundTrip(p2, 12, 4, count);
    NumberElsewhere(p3, 0, 8, parent, 12, 4);
    NumberElsewhere(p4, 120, 8, next, 12, 4);
    NumberRoundTrip(p3, 0, 8, parent);
    NumberElsewhere(p4, 120, 8, next, 0, 8);
    NumberRoundTrip(p4, 120, 8, next);
    NumberRange(p, 112, 8, space);
    NumberRange(p1, 8, 4, 1);
    NumberRange(p2, 12, 4, count);
    NumberRange(p3, 0, 8, parent);
    NumberRange(p4, 120, 8, next);
  }

  method SetSibling(page: array<Byte>, next: nat)
    requires page.Length == PAGE_SIZE && next < U64
    modifies page
    ensures Sibling(page[..]) == next
    ensures ParentOf(page[..]) == old(ParentOf(page[..])) && IsLeaf(page[..]) == old(IsLeaf(page[..]))
    ensures KeyCount(page[..]) == old(KeyCount(page[..])) && FreeSpace(page[..]) == old(FreeSpace(page[..]))
    ensures SameRange(old(page[..]), page[..], HEADER_SIZE, PAGE_SIZE)
  {
    hide GetNumber, PutNumber;
    ghost var p: Page := page[..];
    SetNumber(page, 120, 8, next);
    SiblingFields(p, next);
  }

  lemma SiblingFields(p: Page, next: nat)
    requires next < U64
    ensures
      var q := PutNumber(p, 120, 8, next);
      && Sibling(q) == next && ParentOf(q) == ParentOf(p) && IsLeaf(q) == IsLeaf(p)
      && KeyCount(q) == KeyCount(p) && FreeSpace(q) == FreeSpace(p) && SameRange(p, q, HEADER_SIZE, PAGE_SIZE)
  {
    hide GetNumber, PutNumber;
    Radix8();
    NumberRoundTrip(p, 120, 8, next);
    NumberElsewhere(p, 120, 8, next, 0, 8);
    NumberElsewhere(p, 120, 8, next, 8, 4);
    NumberElsewhere(p, 120, 8, next, 12, 4);
    NumberElsewhere(p, 120, 8, next, 112, 8);
    NumberRange(p, 120, 8, next);
  }

  /** The entries of a leaf that has no room for one more, with that one in its place, can be divided. */
  lemma InsDivides(vs: seq<Value>, at: nat, value: Value)
    requires Fits(vs) && at <= |vs| && MAX_FREE_SPACE < Used(vs) + SLOT_SIZE + |value|
    ensures
      var ws := G.Ins(vs, at, value);
      var s := SplitFrom(ws, 0);
      && 0 < s < |ws| <= MAX_SLOT_NUMBER + 1
      && 1860 <= Used(ws[..s]) <= 1983 && 1986 <= Used(ws[s..]) <= 2232
  {
    var ws := G.Ins(vs, at, value);
    InsUsed(vs, at, value);
    assert ws[at] == value;
    SplitBounds(ws);
  }

  lemma RangedParts(keys: seq<int>, s: nat)
    requires Ranged(keys) && s <= |keys|
    ensures Ranged(keys[..s]) && Ranged(keys[s..])
  {}

  /**
   db_insert_into_leaf_page_after_splitting, up to the link in the parent: the entries and the new one are
   divided between the page and a new page, which becomes its right sibling.
   */
  method SplitLeafPage(page: array<Byte>, newPage: array<Byte>, newNumber: nat, key: int, value: Value,
                       ghost keys: seq<int>, ghost vs: seq<Value>, ghost parent: nat, ghost next: nat)
    returns (ghost at: nat)
    requires page.Length == PAGE_SIZE == newPage.Length && page != newPage && LeafOn(page[..], keys, vs, parent, next)
    requires G.Sorted(keys) && key !in keys && -I64 <= key < I64 && newNumber < U64
    requires FreeSpace(page[..]) < SLOT_SIZE + |value|
    modifies page, newPage
    ensures S.Slot(keys, at, key)
    ensures
      var ks, ws := G.Ins(keys, at, key), G.Ins(vs, at, value);
      var s := SplitFrom(ws, 0);
      && LeafOn(page[..], ks[..s], ws[..s], parent, newNumber)
      && LeafOn(newPage[..], ks[s..], ws[s..], parent, next)
      && Packed(page[..], ks[..s], ws[..s], s) && Packed(newPage[..], ks[s..], ws[s..], |ws| - s)
  {
    hide GetNumber, EntryAt, Bytes, SplitFrom;
    ghost var before: Page := page[..];
    var count := KeyCount(page[..]);
    AtMostSixtyFour(vs);
    var insertionIndex := FindSlot(page[..], count, key, keys, vs, parent, next);
    at := insertionIndex;
    SlotFound(keys, at, key);
    ghost var ks, ws := G.Ins(keys, at, key), G.Ins(vs, at, value);
    ghost var s := SplitFrom(ws, 0);
    InsDivides(vs, at, value);
    InsRanged(keys, at, key);
    RangedParts(ks, s);
    var tempSlot := new Slot[MAX_SLOT_NUMBER + 1](_ => Slot(0, 0, 0));
    var tempValue := new Value[MAX_SLOT_NUMBER + 1];
    Gather(page[..], count, insertionIndex, key, value, tempSlot, tempValue, keys, vs, parent, next);
    var i, allocSpace := PackLeft(page, tempSlot, tempValue, count + 1, ks, ws);
    ghost var packed: Page := page[..];
    HeaderSame(before, packed);
    SetCounts(page, i, MAX_FREE_SPACE - allocSpace);
    ghost var counted: Page := page[..];
    allocSpace := PackRight(newPage, tempSlot, tempValue, i, count + 1, ks, ws);
    ghost var newPacked: Page := newPage[..];
    NumberBound(page[..], 0);
    NumberBound(page[..], 120);
    SetLeafHeader(newPage, MAX_FREE_SPACE - allocSpace, count + 1 - i, ParentOf(page[..]), Sibling(page[..]));
    SetSibling(page, newNumber);
    PackedSame(packed, counted, ks[..s], ws[..s]);
    PackedSame(counted, page[..], ks[..s], ws[..s]);
    PackedSame(newPacked, newPage[..], ks[s..], ws[s..]);
    PackedIsReadable(page[..], ks[..s], ws[..s]);
    PackedIsReadable(newPage[..], ks[s..], ws[s..]);
  }

  lemma NumberBound(p: Page, offset: nat)
    requires offset + 8 <= PAGE_SIZE
    ensures GetNumber(p, offset, 8) < U64
  {
    Radix8();
    DecodeBound(Get(p, offset, 8));
  }

  // ----- The first leaf -----

  /** The first entry of a tree. Its value ends where free space is counted from, not at the end of the page. */
  method StartLeafPage(page: array<Byte>, key: int, value: Value)
    requires page.Length == PAGE_SIZE && -I64 <= key < I64
    modifies page
    ensures LeafOn(page[..], [key], [value], 0, 0)
    ensures GetSlot(page[..], 0) == Slot(key, |value|, 3968 - |value|)
  {
    hide GetNumber, PutSlot, Put, Get;
    OneUsed(value);
    ghost var p: Page := page[..];
    var s := Slot(key, |value|, MAX_FREE_SPACE - |value|);
    SetSlot(page, s, 0);
    ghost var p1: Page := page[..];
    SetValue(page, s, value);
    ghost var p2: Page := page[..];
    SetLeafHeader(page, MAX_FREE_SPACE - |value| - SLOT_SIZE, 1, 0, 0);
    SlotRoundTrip(p, s, 0);
    PutRange(p1, s.offset, value);
    PutGet(p1, s.offset, value);
    SameSlot(p1, p2, 0, s.offset, 0);
    SameSlot(p2, page[..], HEADER_SIZE, PAGE_SIZE, 0);
    SameGet(p2, page[..], HEADER_SIZE, PAGE_SIZE, s.offset, |value|);
    assert EntryReadable(page[..], [key], [value], 0);
  }

  lemma OneUsed(value: Value)
    ensures Used([value]) == |value| + SLOT_SIZE && Fits([value])
  {
    assert Bytes([value]) == |value| by { assert [value][..0] == []; }
  }
}
