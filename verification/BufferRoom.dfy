/**
 When the page buffer has a frame to give. A read fails if and only if every frame is pinned, and an eviction breaks
 the ring if and only if its victim is the entry point. Both are excluded while few pages are pinned.
 */
module BufferRoom {
  import opened Sequences
  import opened PageBytes
  import PageFile
  import opened BufferRing
  import opened BufferCache

  ghost predicate AllPinned(c: Cache) {
    |c.order| == |c.blocks| && forall f :: 0 <= f < |c.blocks| ==> c.blocks[f].pinned != 0
  }

  /** In terms of pages: every page in a full buffer is pinned. */
  lemma AllPinnedPages(c: Cache)
    requires IndexOk(c)
    ensures AllPinned(c) <==>
      |c.order| == |c.blocks| && forall q {:trigger q in c.index} :: q in c.index ==> Pins(c, q) > 0
  {
    if |c.order| == |c.blocks| && forall q {:trigger q in c.index} :: q in c.index ==> Pins(c, q) > 0 {
      forall f | 0 <= f < |c.blocks| ensures c.blocks[f].pinned != 0 {
        assert Indexed(c, f);
        assert KeyOf(c.blocks[f]) in c.index;
      }
    }
    if AllPinned(c) {
      forall q | q in c.index ensures Pins(c, q) > 0 { assert Indexed(c, c.index[q]); }
    }
  }

  // ----- The entry point as a victim -----

  /** Not full, or some other frame than the entry point is unpinned, or all are pinned. */
  ghost predicate Evictable(c: Cache) {
    Within(c.order, |c.blocks|) &&
    (|c.order| == |c.blocks| > 0 && c.blocks[Last(c.order)].pinned == 0 ==>
       exists x :: 0 <= x < |c.order| - 1 && c.blocks[c.order[x]].pinned == 0)
  }

  lemma VictimIsNotEntry(c: Cache, x: nat)
    requires ValidCache(c) && |c.order| == |c.blocks| && FirstUnpinned(c, x)
    ensures Evictable(c) <==> x + 1 < |c.order|
  {
    hide Ring;
  }

  /** A page that is not in the buffer is loaded: a ring is left if the buffer was evictable, and otherwise none. */
  ghost predicate LinksLeft(c: Cache, c': Cache) {
    if Evictable(c) then Ring(c'.blocks, c'.order) else !FormsRing(c'.blocks, c'.order)
  }

  /** A read of k leaves a ring: the page is in the buffer, or there is a frame to evict other than the entry point. */
  ghost predicate KeepsRing(c: Cache, k: Key) {
    k in c.index || Evictable(c)
  }

  /** A read of k, with or without a ring in the end. */
  ghost predicate ReadEnds(c: Cache, disk: Disk, trace: seq<Key>, skip: set<Key>, k: Key, c': Cache, disk': Disk) {
    && ReadMade(c, disk, trace, skip, k, c', disk')
    && if KeepsRing(c, k) then Ring(c'.blocks, c'.order) else !FormsRing(c'.blocks, c'.order)
  }

  lemma HitEnds(c: Cache, disk: Disk, trace: seq<Key>, skip: set<Key>, k: Key, c': Cache, disk': Disk)
    requires ReadDone(c, disk, trace, skip, k, c', disk') && k in c.index
    ensures ReadEnds(c, disk, trace, skip, k, c', disk')
  {
    hide Ring, FormsRing, ReadMade, Evictable;
  }

  lemma MissEnds(c: Cache, disk: Disk, trace: seq<Key>, skip: set<Key>, k: Key, c': Cache, disk': Disk)
    requires ReadMade(c, disk, trace, skip, k, c', disk') && LinksLeft(c, c') && k !in c.index
    ensures ReadEnds(c, disk, trace, skip, k, c', disk')
  {
    hide Ring, FormsRing, ReadMade, Evictable;
  }

  lemma EndsDone(c: Cache, disk: Disk, trace: seq<Key>, skip: set<Key>, k: Key, c': Cache, disk': Disk)
    requires ReadEnds(c, disk, trace, skip, k, c', disk') && KeepsRing(c, k)
    ensures ReadDone(c, disk, trace, skip, k, c', disk')
  {
    hide Ring, FormsRing, ReadMade, Evictable;
  }

  lemma FillLinks(c: Cache, c': Cache)
    requires ValidCache(c) && |c.order| < |c.blocks| && Ring(c'.blocks, c'.order)
    ensures LinksLeft(c, c')
  {
    hide Ring, FormsRing;
    assert forall x :: 0 <= x < |c.order| ==> c.order[x] in c.order;
  }

  lemma EvictLinks(c: Cache, x: nat, c': Cache)
    requires Evictable(c) <==> x + 1 < |c.order|
    requires if x + 1 < |c.order| then Ring(c'.blocks, c'.order) else !FormsRing(c'.blocks, c'.order)
    ensures LinksLeft(c, c')
  {
    hide Ring, FormsRing, Evictable;
  }

  lemma KeepsIf(c: Cache, k: Key)
    requires k in c.index || Evictable(c)
    ensures KeepsRing(c, k)
  {}

  lemma LinksPinned(c: Cache, c': Cache, i: nat)
    requires LinksLeft(c, c') && i < |c'.blocks|
    ensures LinksLeft(c, Pinned(c', i))
  {
    hide Evictable, Ring;
    var b, b' := c'.blocks, Pinned(c', i).blocks;
    assert SameLinks(b, b') && SameLinks(b', b) && Pinned(c', i).order == c'.order;
    hide SameLinks, Pinned;
    if Ring(b, c'.order) { RingSame(b, b', c'.order); }
    if FormsRing(b', c'.order) {
      var o: seq<nat> :| RingOf(b', o, c'.order);
      RingSame(b', b, o);
      assert RingOf(b, o, c'.order);
    }
  }

  /** In a full buffer the relinking leaves a ring if and only if the buffer was evictable. */
  lemma EvictableIff(c: Cache, x: nat)
    requires ValidCache(c) && |c.order| == |c.blocks| >= 2 && FirstUnpinned(c, x)
    ensures Movable(c.blocks, Last(c.order), c.order[x])
    ensures Evictable(c) <==> FormsRing(Moved(c.blocks, Last(c.order), c.order[x]), c.order)
  {
    hide Moved, Movable, FormsRing, LinkOk;
    MoveIffNotEntry(c.blocks, c.order, x);
    RingParts(c.blocks, c.order);
    DistinctAt(c.order, x, |c.order| - 1);
  }

  /** A full buffer in which every frame but the entry point is pinned. */
  ghost predicate Cornered(c: Cache) {
    && |c.order| == |c.blocks| > 0 && Within(c.order, |c.blocks|) && c.blocks[Last(c.order)].pinned == 0
    && forall x :: 0 <= x < |c.order| - 1 ==> c.blocks[c.order[x]].pinned != 0
  }

  /** These are the buffers whose next eviction takes the entry point, and it leaves no ring. */
  lemma CorneredBreaks(c: Cache)
    requires ValidCache(c) && |c.blocks| >= 2
    ensures Cornered(c) <==> !Evictable(c)
    ensures Cornered(c) ==>
      && FirstUnpinned(c, |c.order| - 1) && Movable(c.blocks, Last(c.order), Last(c.order))
      && !FormsRing(Moved(c.blocks, Last(c.order), Last(c.order)), c.order)
  {
    hide Ring, Moved, Movable, FormsRing;
    forall x | 0 <= x < |c.order| ensures c.order[x] < |c.blocks| { assert c.order[x] in c.order; }
    if Cornered(c) { EvictableIff(c, |c.order| - 1); }
  }

  // ----- When an allocation runs out of frames -----

  /** e is the only unpinned page. */
  ghost predicate SoleUnpinned(c: Cache, e: Key)
    requires IndexOk(c)
  {
    e in c.index && Pins(c, e) == 0 && forall u {:trigger u in c.index} :: u in c.index && u != e ==> Pins(c, u) > 0
  }

  ghost predicate OthersPinned(c: Cache, h: Key)
    requires IndexOk(c)
  {
    forall u {:trigger u in c.index} :: u in c.index && u != h ==> Pins(c, u) > 0
  }

  /** Once h has been read and pinned, no frame is left for q, which is not in the buffer either. */
  ghost predicate NoFrameLeft(c: Cache, h: Key, q: Key) {
    && IndexOk(c)
    && if h in c.index then q !in c.index && |c.order| == |c.blocks| && OthersPinned(c, h)
       else if |c.order| < |c.blocks| then q !in c.index && |c.order| + 1 == |c.blocks| && OthersPinned(c, h)
       else exists e {:trigger e in c.index} :: SoleUnpinned(c, e) && (q !in c.index || q == e)
  }

  lemma NoFrameLeftIff(c: Cache, disk: Disk, trace: seq<Key>, skip: set<Key>, h: Key, c': Cache, disk': Disk, q: Key)
    requires ReadDone(c, disk, trace, skip, h, c', disk') && q != h
    ensures IndexOk(c') && (NoFrameLeft(c, h, q) <==> q !in c'.index && AllPinned(c'))
  {
    hide Ring, Coherent, SameView, Recent, LastRead, DiskKept, AllPinned;
    AllPinnedPages(c');
    ReadPins(c, disk, trace, skip, h, c', disk');
    if h !in c.index && |c.order| == |c.blocks| {
      var e :| e in c.index && c'.index.Keys == c.index.Keys - {e} + {h};
      assert e !in c'.index;
      if AllPinned(c') && q !in c'.index {
        forall u | u in c.index && u != e ensures Pins(c, u) > 0 { assert u in c'.index; }
        assert SoleUnpinned(c, e);
      }
      if NoFrameLeft(c, h, q) {
        var e' :| e' in c.index && SoleUnpinned(c, e') && (q !in c.index || q == e');
        assert e' == e;
      }
    }
  }

  lemma ReadPins(c: Cache, disk: Disk, trace: seq<Key>, skip: set<Key>, h: Key, c': Cache, disk': Disk)
    requires ReadDone(c, disk, trace, skip, h, c', disk')
    ensures forall u {:trigger u in c'.index} {:trigger u in c.index} ::
      (u != h ==> Pins(c', u) == Pins(c, u) >= 0) && (u == h ==> Pins(c', u) > 0)
    ensures forall u {:trigger u in c.index} :: u in c.index && u !in c'.index ==> Pins(c, u) == 0
  {
    hide Ring, Coherent, SameView, Recent, LastRead, DiskKept;
    forall u ensures Pins(c, u) >= 0 { if u in c.index { assert Indexed(c, c.index[u]); } }
  }

  /** buffer_alloc_page finds no frame for the header, or none for the new page behind it. */
  ghost predicate AllocFails(c: Cache, h: Key, q: Key) {
    (h !in c.index && AllPinned(c)) || NoFrameLeft(c, h, q)
  }

  // ----- Few pages pinned -----

  /** P has each page as often as it is pinned. */
  ghost predicate Pinning(c: Cache, P: multiset<Key>) {
    IndexOk(c) && forall q :: Pins(c, q) == P[q]
  }

  /** The pages in the frames below n. */
  lemma {:induction false} PagesBelow(c: Cache, n: nat) returns (K: set<Key>)
    requires IndexOk(c) && n <= |c.order|
    ensures |K| == n && forall q :: q in K <==> q in c.index && c.index[q] < n
  {
    if n == 0 {
      K := {};
    } else {
      K := PagesBelow(c, n - 1);
      assert Indexed(c, n - 1);
      K := K + {KeyOf(c.blocks[n - 1])};
    }
  }

  /** No more pages are pinned than there are pins. */
  lemma FewPinned(P: multiset<Key>, K: set<Key>)
    requires forall q :: q in K ==> P[q] > 0
    ensures |K| <= |P|
  {
    assert multiset(K) <= P;
    assert P == multiset(K) + (P - multiset(K));
  }

  lemma TwoUnpinned(c: Cache, P: multiset<Key>) returns (u: Key, v: Key)
    requires Pinning(c, P) && |P| + 2 <= |c.order|
    ensures u != v && u in c.index && v in c.index && Pins(c, u) == 0 && Pins(c, v) == 0
  {
    hide IndexOk, Pins;
    var all := PagesBelow(c, |c.order|);
    var pinned := set q | q in all && P[q] > 0;
    FewPinned(P, pinned);
    var free := all - pinned;
    assert |free| >= 2 by { assert all == pinned + free; }
    u :| u in free;
    assert |free - {u}| >= 1;
    v :| v in free - {u};
  }

  /** With two frames to spare a read finds one, and not only the entry point. */
  lemma SpareFrames(c: Cache, P: multiset<Key>)
    requires ValidCache(c) && Pinning(c, P) && |P| + 2 <= |c.blocks|
    ensures Evictable(c) && !AllPinned(c)
  {
    hide Ring;
    forall x | 0 <= x < |c.order| ensures c.order[x] < |c.blocks| { assert c.order[x] in c.order; }
    if |c.order| == |c.blocks| {
      var u, v := TwoUnpinned(c, P);
      var w := if c.index[u] == Last(c.order) then v else u;
      assert c.index[w] in c.order;
      var x :| 0 <= x < |c.order| && c.order[x] == c.index[w];
      assert x < |c.order| - 1;
    }
  }

  /** With three frames to spare an allocation finds both of the frames it needs. */
  lemma AllocSucceeds(c: Cache, P: multiset<Key>, h: Key, q: Key)
    requires ValidCache(c) && Pinning(c, P) && |P| + 3 <= |c.blocks|
    ensures Evictable(c) && !AllocFails(c, h, q)
  {
    hide NoFrameLeft;
    SpareFrames(c, P);
    FrameLeft(c, P, h, q);
  }

  lemma FrameLeft(c: Cache, P: multiset<Key>, h: Key, q: Key)
    requires Pinning(c, P) && |P| + 3 <= |c.blocks|
    ensures !NoFrameLeft(c, h, q)
  {
    if |c.order| + 1 >= |c.blocks| {
      var u, v := TwoUnpinned(c, P);
      hide Pins, IndexOk;
      assert u in c.index && v in c.index && !OthersPinned(c, h);
      forall e | e in c.index ensures !SoleUnpinned(c, e) {}
    }
  }
}
