/**
 The ring of control blocks of buffer.cc: the frames in use are linked by index into one cycle, from the least
 recently read frame, which follows the entry point, to the most recently read one, which is the entry point.
 */
module BufferRing {
  import opened Sequences

  datatype Block = Block(table: int, page: nat, dirty: bool, pinned: int, prev: nat, next: nat)

  function Succ(k: nat, n: nat): nat {
    if k + 1 >= n then 0 else k + 1
  }

  function Pred(k: nat, n: nat): nat {
    if k == 0 then (if n == 0 then 0 else n - 1) else k - 1
  }

  ghost predicate LinkOk(b: seq<Block>, order: seq<nat>, k: nat)
    requires k < |order|
  {
    && order[k] < |b|
    && b[order[k]].next == order[Succ(k, |order|)] && b[order[k]].prev == order[Pred(k, |order|)]
  }

  /** The frames of order form one cycle. */
  ghost predicate Ring(b: seq<Block>, order: seq<nat>) {
    Distinct(order) && forall k {:trigger order[k]} :: 0 <= k < |order| ==> LinkOk(b, order, k)
  }

  // ----- The two moves -----

  /** The neighbours of i close up around it; i itself keeps its links. */
  function Unlinked(b: seq<Block>, i: nat): seq<Block>
    requires i < |b| && b[i].prev < |b| && b[i].next < |b|
  {
    var p, n := b[i].prev, b[i].next;
    var b1 := b[p := b[p].(next := n)];
    b1[n := b1[n].(prev := p)]
  }

  /** i goes behind the entry point. */
  function LinkedAfter(b: seq<Block>, entry: nat, i: nat): seq<Block>
    requires i < |b| && entry < |b| && b[entry].next < |b|
  {
    var n := b[entry].next;
    var b1 := b[entry := b[entry].(next := i)];
    var b2 := b1[n := b1[n].(prev := i)];
    b2[i := b2[i].(next := n, prev := entry)]
  }

  lemma UnlinkedFields(b: seq<Block>, i: nat, j: nat)
    requires i < |b| && b[i].prev < |b| && b[i].next < |b|
    ensures |Unlinked(b, i)| == |b|
    ensures j < |b| ==>
      Unlinked(b, i)[j] == b[j].(next := if j == b[i].prev then b[i].next else b[j].next,
                                 prev := if j == b[i].next then b[i].prev else b[j].prev)
  {}

  lemma LinkedAfterFields(b: seq<Block>, entry: nat, i: nat, j: nat)
    requires i < |b| && entry < |b| && b[entry].next < |b|
    ensures |LinkedAfter(b, entry, i)| == |b|
    ensures var n := b[entry].next; j < |b| ==>
      LinkedAfter(b, entry, i)[j] == b[j].(next := if j == i then n else if j == entry then i else b[j].next,
                                           prev := if j == i then entry else if j == n then i else b[j].prev)
  {}

  /** Where the element at x of Without(order, k) comes from. */
  function Skip(k: nat, x: nat): nat {
    if x < k then x else x + 1
  }

  lemma WithoutAt(order: seq<nat>, k: nat, x: nat)
    requires k < |order|
    ensures |Without(order, k)| == |order| - 1
    ensures x < |order| - 1 ==> Without(order, k)[x] == order[Skip(k, x)]
  {}

  lemma WithoutDistinct(order: seq<nat>, k: nat)
    requires Distinct(order) && k < |order|
    ensures Distinct(Without(order, k)) && order[k] !in Without(order, k)
    ensures forall f :: f in Without(order, k) <==> f in order && f != order[k]
  {
    var p := Without(order, k);
    assert forall x :: 0 <= x < |p| ==> p[x] == order[if x < k then x else x + 1];
    forall f | f in order && f != order[k] ensures f in p {
      var x :| 0 <= x < |order| && order[x] == f;
      assert p[if x < k then x else x - 1] == f;
    }
  }

  lemma RingParts(b: seq<Block>, order: seq<nat>)
    requires Ring(b, order)
    ensures Distinct(order)
  {}

  lemma RingAt(b: seq<Block>, order: seq<nat>, k: nat)
    requires Ring(b, order) && k < |order|
    ensures LinkOk(b, order, k)
    ensures order[k] < |b| && b[order[k]].prev < |b| && b[order[k]].next < |b|
  {
    assert order[k] == order[k];
    assert order[Succ(k, |order|)] == b[order[k]].next && order[Pred(k, |order|)] == b[order[k]].prev;
    assert LinkOk(b, order, Succ(k, |order|)) && LinkOk(b, order, Pred(k, |order|));
  }

  lemma RingLast(b: seq<Block>, order: seq<nat>)
    requires Ring(b, order) && order != []
    ensures order[|order| - 1] < |b| && b[order[|order| - 1]].next == order[0]
  {
    RingAt(b, order, |order| - 1);
  }

  /** Positions: leaving out k, the neighbours of the rest are what closing up around k makes them. */
  lemma SkipNeighbours(n: nat, k: nat, x: nat)
    requires n >= 2 && k < n && x < n - 1
    ensures var y := Skip(k, x);
      && y < n && y != k
      && Skip(k, Succ(x, n - 1)) == (if y == Pred(k, n) then Succ(k, n) else Succ(y, n))
      && Skip(k, Pred(x, n - 1)) == (if y == Succ(k, n) then Pred(k, n) else Pred(y, n))
  {}

  lemma UnlinkAt(b: seq<Block>, order: seq<nat>, k: nat, x: nat)
    requires Ring(b, order) && |order| >= 2 && k < |order| && x < |order| - 1
    requires order[k] < |b| && b[order[k]].prev < |b| && b[order[k]].next < |b|
    ensures x < |Without(order, k)| && LinkOk(Unlinked(b, order[k]), Without(order, k), x)
  {
    hide Unlinked, Ring, Distinct, Without, Skip;
    var n := |order|;
    var y := Skip(k, x);
    SkipNeighbours(n, k, x);
    RingAt(b, order, k);
    RingAt(b, order, y);
    UnlinkedFields(b, order[k], order[y]);
    WithoutAt(order, k, x);
    WithoutAt(order, k, Succ(x, n - 1));
    WithoutAt(order, k, Pred(x, n - 1));
    RingParts(b, order);
    DistinctAt(order, y, Pred(k, n));
    DistinctAt(order, y, Succ(k, n));
  }

  lemma UnlinkRing(b: seq<Block>, order: seq<nat>, k: nat)
    requires Ring(b, order) && |order| >= 2 && k < |order|
    ensures order[k] < |b| && b[order[k]].prev < |b| && b[order[k]].next < |b|
    ensures Ring(Unlinked(b, order[k]), Without(order, k))
  {
    RingAt(b, order, k);
    WithoutDistinct(order, k);
    hide Unlinked, LinkOk;
    var p := Without(order, k);
    forall x | 0 <= x < |p| ensures LinkOk(Unlinked(b, order[k]), p, x) { UnlinkAt(b, order, k, x); }
  }

  lemma AppendAt(b: seq<Block>, order: seq<nat>, i: nat, x: nat)
    requires Ring(b, order) && order != [] && i < |b| && i !in order && x <= |order|
    requires order[|order| - 1] < |b| && b[order[|order| - 1]].next < |b|
    ensures LinkOk(LinkedAfter(b, order[|order| - 1], i), order + [i], x)
  {
    hide LinkedAfter, Ring, Distinct;
    var n, p := |order|, order + [i];
    var e := order[n - 1];
    RingAt(b, order, n - 1);
    LinkedAfterFields(b, e, i, p[x]);
    if x < n {
      assert order[x] in order;
      RingAt(b, order, x);
      RingParts(b, order);
      DistinctAt(order, x, n - 1);
      DistinctAt(order, x, 0);
    }
  }

  lemma AppendRing(b: seq<Block>, order: seq<nat>, i: nat)
    requires Ring(b, order) && order != [] && i < |b| && i !in order
    ensures order[|order| - 1] < |b| && b[order[|order| - 1]].next < |b|
    ensures Ring(LinkedAfter(b, order[|order| - 1], i), order + [i])
  {
    RingAt(b, order, |order| - 1);
    DistinctMore(order, i);
    hide LinkedAfter, LinkOk, Distinct;
    var b' := LinkedAfter(b, order[|order| - 1], i);
    forall x | 0 <= x < |order + [i]| ensures LinkOk(b', order + [i], x) { AppendAt(b, order, i, x); }
  }

  ghost predicate Movable(b: seq<Block>, entry: nat, i: nat) {
    && i < |b| && b[i].prev < |b| && b[i].next < |b| && entry < |b|
    && |Unlinked(b, i)| == |b| && Unlinked(b, i)[entry].next < |b|
  }

  /** The relinking of one frame, which an eviction and a repeated read both do. */
  ghost function Moved(b: seq<Block>, entry: nat, i: nat): seq<Block>
    requires Movable(b, entry, i)
  {
    LinkedAfter(Unlinked(b, i), entry, i)
  }

  /** Moving a frame other than the entry point makes it the last of the ring. */
  lemma MoveRing(b: seq<Block>, order: seq<nat>, k: nat)
    requires Ring(b, order) && k + 1 < |order|
    ensures Movable(b, order[|order| - 1], order[k])
    ensures Ring(Moved(b, order[|order| - 1], order[k]), Without(order, k) + [order[k]])
  {
    hide Unlinked, LinkedAfter, LinkOk, Distinct;
    RingAt(b, order, |order| - 1);
    UnlinkRing(b, order, k);
    assert Distinct(order);
    WithoutDistinct(order, k);
    var p, i := Without(order, k), order[k];
    assert p[|p| - 1] == order[|order| - 1];
    UnlinkedFields(b, i, 0);
    AppendRing(Unlinked(b, i), p, i);
  }

  /** order' is a ring of the frames in order. */
  ghost predicate RingOf(b: seq<Block>, order': seq<nat>, order: seq<nat>) {
    Ring(b, order') && |order'| == |order| && forall f :: f in order' <==> f in order
  }

  /** The frames in order form a ring in some order. */
  ghost predicate FormsRing(b: seq<Block>, order: seq<nat>) {
    exists order': seq<nat> :: RingOf(b, order', order)
  }

  /** A frame that is its own predecessor stands on no ring of two frames or more. */
  lemma OwnPredecessor(b: seq<Block>, order: seq<nat>, i: nat, x: nat)
    requires Ring(b, order) && |order| >= 2 && i < |b| && b[i].prev == i && x < |order|
    ensures order[x] != i
  {
    RingAt(b, order, x);
    RingParts(b, order);
    DistinctAt(order, x, Pred(x, |order|));
  }

  lemma EntryMovable(b: seq<Block>, order: seq<nat>)
    requires Ring(b, order) && |order| >= 2
    ensures var i := order[|order| - 1];
      && Movable(b, i, i) && i < |b| == |Moved(b, i, i)|
      && Moved(b, i, i)[i].prev == i && Moved(b, i, i)[i].next == order[0]
  {
    hide Unlinked, LinkedAfter, Ring;
    var n := |order|;
    var i := order[n - 1];
    RingAt(b, order, n - 1);
    UnlinkedFields(b, i, i);
    RingParts(b, order);
    DistinctAt(order, n - 1, n - 2);
    DistinctAt(order, n - 1, 0);
    LinkedAfterFields(Unlinked(b, i), i, i, i);
  }

  /**
   The relinking works if and only if the frame is not the entry point: moving the entry point of a ring of at
   least two frames leaves no ring of these frames in any order.
   */
  lemma MoveIffNotEntry(b: seq<Block>, order: seq<nat>, k: nat)
    requires Ring(b, order) && k < |order| && |order| >= 2
    ensures Movable(b, order[|order| - 1], order[k])
    ensures order[k] != order[|order| - 1] <==> FormsRing(Moved(b, order[|order| - 1], order[k]), order)
  {
    hide Unlinked, LinkedAfter, LinkOk, Movable, Moved;
    var entry, i := order[|order| - 1], order[k];
    RingParts(b, order);
    DistinctAt(order, k, |order| - 1);
    if i != entry {
      MoveRing(b, order, k);
      WithoutDistinct(order, k);
      assert RingOf(Moved(b, entry, i), Without(order, k) + [i], order);
    } else {
      EntryMovable(b, order);
      RingAt(b, order, k);
      var b' := Moved(b, entry, i);
      assert order[k] in order;
      forall order': seq<nat> ensures !RingOf(b', order', order) {
        assert Ring(b', order') && |order'| == |order| ==> i !in order' by {
          if Ring(b', order') && |order'| == |order| {
            forall x | 0 <= x < |order'| ensures order'[x] != i { OwnPredecessor(b', order', i, x); }
          }
        }
      }
    }
  }

  /** The blocks and the entry point determine the order. */
  lemma {:induction false} OrderUnique(b: seq<Block>, o: seq<nat>, p: seq<nat>, k: nat)
    requires Ring(b, o) && Ring(b, p) && |o| == |p| && k < |o| && o[|o| - 1] == p[|p| - 1]
    ensures o[k] == p[k]
  {
    hide Ring, Distinct;
    if k == 0 {
      RingAt(b, o, |o| - 1);
      RingAt(b, p, |p| - 1);
    } else {
      OrderUnique(b, o, p, k - 1);
      RingAt(b, o, k - 1);
      RingAt(b, p, k - 1);
    }
  }
}
