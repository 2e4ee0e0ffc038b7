/**
 Insertion into the on-disk tree, on graphs whose nodes are page numbers and whose records are the values'
 bytes. How full a leaf is counts in bytes, an internal page in keys; otherwise the steps are those of the tree
 in memory.
 */
module DiskInsertion {
  import opened BPlusGraph
  import opened BPlusSplit
  import opened BPlusMap
  import opened BPlusInsertion
  import opened PageBytes
  import opened LeafLayout
  import opened InnerPage
  import LeafPage

  type Pointer = Ptr<nat, Value>
  type Node = Val<nat, Value>
  type DiskGraph = Graph<nat, Value>

  // ----- Entries and children of a node -----

  function ValueOf(p: Pointer): Value {
    if p.ToRecord? then p.rec else Encode(0, 50)
  }

  function NumberOf(p: Pointer): nat {
    if p.ToNode? then p.node else 0
  }

  function Values(ptrs: seq<Pointer>): (vs: seq<Value>)
    ensures |vs| == |ptrs| && forall i :: 0 <= i < |ptrs| ==> vs[i] == ValueOf(ptrs[i])
  {
    seq(|ptrs|, i requires 0 <= i < |ptrs| => ValueOf(ptrs[i]))
  }

  function Children(ptrs: seq<Pointer>): (cs: seq<nat>)
    ensures |cs| == |ptrs| && forall i :: 0 <= i < |ptrs| ==> cs[i] == NumberOf(ptrs[i])
  {
    seq(|ptrs|, i requires 0 <= i < |ptrs| => NumberOf(ptrs[i]))
  }

  lemma ValuesIns(ptrs: seq<Pointer>, i: nat, r: Value)
    requires i <= |ptrs|
    ensures Values(Ins(ptrs, i, ToRecord(r))) == Ins(Values(ptrs), i, r)
  {}

  lemma ValuesParts(ptrs: seq<Pointer>, s: nat)
    requires s <= |ptrs|
    ensures Values(ptrs[..s]) == Values(ptrs)[..s] && Values(ptrs[s..]) == Values(ptrs)[s..]
  {}

  lemma ChildrenIns(ptrs: seq<Pointer>, i: nat, c: nat)
    requires i <= |ptrs|
    ensures Children(Ins(ptrs, i, ToNode(c))) == Ins(Children(ptrs), i, c)
  {}

  lemma ChildrenParts(ptrs: seq<Pointer>, s: nat)
    requires s <= |ptrs|
    ensures Children(ptrs[..s]) == Children(ptrs)[..s] && Children(ptrs[s..]) == Children(ptrs)[s..]
  {}

  // ----- Occupancy -----

  const LEAST_USED := 1860
  const LEAST_KEYS := SPLIT - 1

  ghost predicate FitsPage(v: Node) {
    if v.leaf then Fits(Values(v.ptrs)) else |v.keys| <= MAX_KEY_NUMBER
  }

  /** What a split leaves, and what insertions only add to. */
  ghost predicate HalfFull(v: Node) {
    FitsPage(v) && if v.leaf then Used(Values(v.ptrs)) >= LEAST_USED else |v.keys| >= LEAST_KEYS
  }

  ghost predicate DiskFilled(G: DiskGraph, root: nat, n: nat)
    requires n in G
  {
    if n == root then FitsPage(G[n]) && |G[n].keys| >= 1 else HalfFull(G[n])
  }

  ghost predicate DiskFilledBut(G: DiskGraph, root: nat, x: nat) {
    forall n {:trigger DiskFilled(G, root, n)} :: n in G && n != x ==> DiskFilled(G, root, n)
  }

  /** G is a balanced, sorted, sufficiently filled search tree for the map M whose nodes fit into pages. */
  ghost predicate IsDiskTree(G: DiskGraph, root: nat, M: map<int, Value>) {
    && Shape(G, root) && Holds(G, M)
    && forall n {:trigger DiskFilled(G, root, n)} :: n in G ==> DiskFilled(G, root, n)
  }

  /**
   An internal page has at most 248 keys, and below the root at least 123; a leaf uses at most 3968 bytes, and below the
   root at least 1860.
   */
  ghost predicate InBounds(G: DiskGraph, root: nat) {
    forall n {:trigger G[n]} :: n in G ==>
      && |G[n].keys| >= 1
      && (!G[n].leaf ==> |G[n].keys| <= 248 && (n != root ==> |G[n].keys| >= 123))
      && (G[n].leaf ==> Used(Values(G[n].ptrs)) <= 3968 && (n != root ==> Used(Values(G[n].ptrs)) >= 1860))
  }

  lemma DiskTreeBounds(G: DiskGraph, root: nat, M: map<int, Value>)
    requires IsDiskTree(G, root, M)
    ensures InBounds(G, root)
  {
    hide Shape, Holds, Used;
    forall n | n in G
      ensures |G[n].keys| >= 1
      ensures !G[n].leaf ==> |G[n].keys| <= 248 && (n != root ==> |G[n].keys| >= 123)
      ensures G[n].leaf ==> Used(Values(G[n].ptrs)) <= 3968 && (n != root ==> Used(Values(G[n].ptrs)) >= 1860)
    {
      assert DiskFilled(G, root, n);
      if G[n].leaf && n != root { LeafHasKey(G, root, n); }
    }
  }

  lemma LeafHasKey(G: DiskGraph, root: nat, n: nat)
    requires Shape(G, root) && n in G && G[n].leaf && Used(Values(G[n].ptrs)) >= 1
    ensures |G[n].keys| >= 1
  {
    assert Ok(G, root, n);
  }

  // ----- One step of an insertion -----

  lemma RoomStep(G: DiskGraph, root: nat, M: map<int, Value>, n: nat, i: nat, k: int, r: Value)
    requires IsDiskTree(G, root, M) && n in G && G[n].leaf && G[n].lo <= k < G[n].hi && k !in M
    requires BPlusSplit.Slot(G[n].keys, i, k) && Used(Values(G[n].ptrs)) + SLOT_SIZE + |r| <= MAX_FREE_SPACE
    ensures i <= |G[n].keys| && |G[n].ptrs| == |G[n].keys|
      && IsDiskTree(G[n := InsertVal(G[n], i, k, r)], root, M[k := r])
  {
    assert Ok(G, root, n) && DiskFilled(G, root, n);
    LeafInsertShape(G, root, n, i, k, r);
    InsertHolds(G, M, n, i, k, r);
    var H := G[n := InsertVal(G[n], i, k, r)];
    ValuesIns(G[n].ptrs, i, r);
    LeafPage.InsUsed(Values(G[n].ptrs), i, r);
    hide Shape, Holds, Used;
    forall m | m in H ensures DiskFilled(H, root, m) { assert DiskFilled(G, root, m); }
  }

  /**
   A node that had become too full has been divided: G is the tree with the overfull node n, T is G with n's upper
   part moved to the page `right`, which no node points to yet.
   */
  ghost predicate Dividing(G: DiskGraph, root: nat, M: map<int, Value>, n: nat, s: nat, right: nat, T: DiskGraph) {
    && Shape(G, root) && Holds(G, M) && n in G && right !in G && DiskFilledBut(G, root, n)
    && Splittable(G[n], s) && HalfFull(LeftHalf(G[n], s, right)) && HalfFull(RightHalf(G[n], s))
    && T == Halves(G, n, s, right)
  }

  lemma SplitDiskFilled(G: DiskGraph, root: nat, M: map<int, Value>, n: nat, s: nat, right: nat, T: DiskGraph, p: nat,
      idx: nat)
    requires Dividing(G, root, M, n, s, right, T) && SplitAt(G, root, n, s, right, p, idx)
    ensures var H := Split(G, root, n, s, right, p, idx);
      DiskFilledBut(H, root, p) && p in H && |H[p].keys| == |G[p].keys| + 1
  {
    hide Shape, Holds, Splittable, Split, LeftHalf, RightHalf, HalfFull, FitsPage, Halves;
    var H := Split(G, root, n, s, right, p, idx);
    SplitFrame(G, root, n, s, right, p, idx, n);
    RootIsNot(G, root, n, s, right, p, idx);
    forall m | m in H && m != p ensures DiskFilled(H, root, m) {
      if m != right && m != n {
        SplitFrame(G, root, n, s, right, p, idx, m);
        assert DiskFilled(G, root, m);
        assert HalfFull(H[m]) == HalfFull(G[m]) && FitsPage(H[m]) == FitsPage(G[m]) by { SameFill(G[m], H[m]); }
      }
    }
  }

  lemma SameFill(v: Node, w: Node)
    requires w.leaf == v.leaf && w.keys == v.keys && w.ptrs == v.ptrs
    ensures HalfFull(w) == HalfFull(v) && FitsPage(w) == FitsPage(v)
  {}

  lemma RootIsNot(G: DiskGraph, root: nat, n: nat, s: nat, right: nat, p: nat, idx: nat)
    requires SplitAt(G, root, n, s, right, p, idx)
    ensures n != root && right != root
  {}

  /** A divided root goes under a new root. */
  lemma NewRootStep(G: DiskGraph, root: nat, M: map<int, Value>, s: nat, right: nat, T: DiskGraph, r: nat)
    requires Dividing(G, root, M, root, s, right, T) && r !in T
    ensures root in T && right in T && IsDiskTree(UnderRoot(T, root, G[root].keys[s], right, r), r, M)
  {
    assert Rooted(G, root, s, right, r) == UnderRoot(T, root, G[root].keys[s], right, r);
    RootedShape(G, root, s, right, r);
    RootedHolds(G, M, root, s, right, r);
    var H := Rooted(G, root, s, right, r);
    hide Shape, Holds, HalfFull, FitsPage, Splittable;
    forall m | m in H ensures DiskFilled(H, r, m) {
      if m == r {
        assert FitsPage(H[r]) by { SmallRootFits(H[r]); }
      } else if m == root {
        SameFill(LeftHalf(G[root], s, right), H[m]);
      } else if m == right {
        SameFill(RightHalf(G[root], s), H[m]);
      } else {
        assert DiskFilled(G, root, m);
        SameFill(G[m], H[m]);
      }
    }
  }

  lemma SmallRootFits(v: Node)
    requires !v.leaf && |v.keys| == 1
    ensures FitsPage(v)
  {}

  /** A divided node below the root: its parent takes the new half, or becomes too full in turn. */
  lemma ParentStep(G: DiskGraph, root: nat, M: map<int, Value>, n: nat, s: nat, right: nat, T: DiskGraph, p: nat,
      idx: nat)
    requires Dividing(G, root, M, n, s, right, T) && n != root
    requires p in T && n in T && T[n].parent == ToNode(p) && idx < |T[p].ptrs| && T[p].ptrs[idx] == ToNode(n)
    ensures idx <= |T[p].keys| <= MAX_KEY_NUMBER && |T[p].ptrs| == |T[p].keys| + 1 && right != p && n != p
    ensures
      var H := Linked(T, p, idx, G[n].keys[s], right);
      && Shape(H, root) && Holds(H, M) && DiskFilledBut(H, root, p) && p in H
      && (|T[p].keys| < MAX_KEY_NUMBER ==> IsDiskTree(H, root, M))
      && Climb(H, root, p) < Climb(G, root, n)
  {
    HalvesFacts(G, root, n, s, right);
    assert Ok(G, root, n) && Ok(G, root, p) && DiskFilled(G, root, p);
    assert ChildOk(G, p, G[p], idx);
    assert SplitAt(G, root, n, s, right, p, idx);
    SplitFrame(G, root, n, s, right, p, idx, p);
    SplitFrame(G, root, n, s, right, p, idx, root);
    SplitShape(G, root, n, s, right, p, idx);
    SplitHolds(G, root, M, n, s, right, p, idx);
    SplitDiskFilled(G, root, M, n, s, right, T, p, idx);
    var K := Split(G, root, n, s, right, p, idx);
    if |G[p].keys| < MAX_KEY_NUMBER {
      forall m | m in K ensures DiskFilled(K, root, m) {
        if m == p { assert DiskFilled(G, root, p); }
      }
    }
  }

  lemma LeafHalvesFull(w: Node, i: nat, k: int, r: Value, right: nat)
    requires w.leaf && |w.ptrs| == |w.keys| && i <= |w.keys| && Fits(Values(w.ptrs))
    requires MAX_FREE_SPACE < Used(Values(w.ptrs)) + SLOT_SIZE + |r|
    ensures
      var v := InsertVal(w, i, k, r);
      var s := SplitFrom(Values(v.ptrs), 0);
      0 < s && Divisible(v, s) && HalfFull(LeftHalf(v, s, right)) && HalfFull(RightHalf(v, s))
  {
    var v := InsertVal(w, i, k, r);
    var s := SplitFrom(Values(v.ptrs), 0);
    ValuesIns(w.ptrs, i, r);
    LeafPage.InsDivides(Values(w.ptrs), i, r);
    ValuesParts(v.ptrs, s);
  }

  /** A leaf without room, with the new entry in place, divides where the source divides it. */
  lemma LeafDividing(T: DiskGraph, root: nat, M: map<int, Value>, n: nat, i: nat, k: int, r: Value, right: nat)
    requires IsDiskTree(T, root, M) && n in T && T[n].leaf && T[n].lo <= k < T[n].hi && k !in M && right !in T
    requires BPlusSplit.Slot(T[n].keys, i, k) && MAX_FREE_SPACE < Used(Values(T[n].ptrs)) + SLOT_SIZE + |r|
    ensures |T[n].ptrs| == |T[n].keys| && i <= |T[n].keys|
    ensures
      var v := InsertVal(T[n], i, k, r);
      var s := SplitFrom(Values(v.ptrs), 0);
      Splittable(v, s) && Dividing(T[n := v], root, M[k := r], n, s, right, DividedGraph(T, n, v, s, right))
  {
    hide Used, Values, Fits, HalfFull, Holds, SplitFrom, Shape, BPlusSplit.Slot;
    LeafReady(T, root, M, n, i, k);
    LeafInsertShape(T, root, n, i, k, r);
    InsertHolds(T, M, n, i, k, r);
    LeafHalvesFull(T[n], i, k, r, right);
    var v := InsertVal(T[n], i, k, r);
    var G, s := T[n := v], SplitFrom(Values(v.ptrs), 0);
    InsSorted(T[n].keys, i, k);
    FirstKey(T[n], i, k);
    assert v.keys[0] < v.keys[s];
    forall m | m in G && m != n ensures DiskFilled(G, root, m) { assert DiskFilled(T, root, m); }
    assert DividedGraph(T, n, v, s, right) == Halves(G, n, s, right);
  }

  lemma LeafReady(T: DiskGraph, root: nat, M: map<int, Value>, n: nat, i: nat, k: int)
    requires IsDiskTree(T, root, M) && n in T && T[n].leaf && BPlusSplit.Slot(T[n].keys, i, k)
    ensures |T[n].ptrs| == |T[n].keys| && i <= |T[n].keys| && Fits(Values(T[n].ptrs)) && KeysOk(T[n])
      && Sorted(T[n].keys)
  {
    hide Fits;
    assert Ok(T, root, n) && DiskFilled(T, root, n);
  }

  lemma FirstKey(v: Node, i: nat, k: int)
    requires KeysOk(v) && v.lo <= k && i <= |v.keys|
    ensures Ins(v.keys, i, k)[0] >= v.lo
  {}

  /** An internal page with one pair too many divides where the source divides it, once the children have moved. */
  lemma InnerDividing(T: DiskGraph, idx: nat, key: int, x: nat, G: DiskGraph, root: nat, M: map<int, Value>, n: nat,
      right: nat)
    requires n in T && idx <= |T[n].keys| && idx < |T[n].ptrs| && G == Linked(T, n, idx, key, x)
    requires Shape(G, root) && Holds(G, M) && DiskFilledBut(G, root, n) && |T[n].keys| == MAX_KEY_NUMBER
    requires right !in T && !T[n].leaf
    ensures
      var v := LinkedVal(T[n], idx, key, x);
      && Splittable(v, LEAST_KEYS)
      && var L := DividedGraph(T, n, v, LEAST_KEYS, right);
      && Adoptable(L, right) && Dividing(G, root, M, n, LEAST_KEYS, right, Adopted(L, right))
  {
    var v, s := G[n], LEAST_KEYS;
    assert Ok(G, root, n);
    var L := DividedGraph(T, n, v, s, right);
    assert L == DividedGraph(G, n, v, s, right);
    HalvesByAdoption(G, root, n, s, right);
    forall p | p in L[right].ptrs ensures p.ToNode? && p.node in L {
      var i :| 0 <= i < |v.ptrs| && v.ptrs[i] == p;
      assert ChildOk(G, n, v, i);
    }
  }

  /** The first insertion makes a tree of one leaf. */
  lemma FirstLeaf(n: nat, k: int, r: Value)
    requires MIN_KEY <= k < KEY_LIMIT
    ensures IsDiskTree(map[n := Val(true, [k], [ToRecord(r)], NullPtr, NullPtr, 0, MIN_KEY, KEY_LIMIT)], n, map[k := r])
  {
    SingleLeaf(n, 3, k, r);
    var G: DiskGraph := map[n := Val(true, [k], [ToRecord(r)], NullPtr, NullPtr, 0, MIN_KEY, KEY_LIMIT)];
    assert Values(G[n].ptrs) == [r];
    assert Bytes([r]) == |r| by { assert [r][..0] == []; }
  }
}
