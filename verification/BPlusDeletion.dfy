/**
 Deletion on graphs: a node one key short, a merge whose right node is gone but still has its entry in the
 parent, an entry moved between neighbours. Every step leads to the next such state or to a tree.
 */
module BPlusDeletion {
  import opened BPlusGraph
  import opened BPlusSplit
  import opened BPlusMerge
  import opened BPlusMap
  import opened BPlusInsertion

  // ----- A tree in the middle of a deletion -----

  /** A tree for M, except that n may be one key short; the root may even have none. */
  ghost predicate Starving<N, R>(G: Graph<N, R>, root: N, order: nat, M: map<int, R>, n: N) {
    && order >= 3 && Shape(G, root) && Holds(G, M)
    && n in G && FilledBut(G, root, order, n)
    && |G[n].keys| <= order - 1
    && (n != root ==> |G[n].keys| + 1 >= MinKeys(order, G[n].leaf))
  }

  /** Taking an entry out of a leaf. */
  lemma RemoveStep<N, R>(G: Graph<N, R>, root: N, order: nat, M: map<int, R>, n: N, i: nat)
    requires IsTree(G, root, order, M) && n in G && G[n].leaf && i < |G[n].keys|
    ensures |G[n].ptrs| == |G[n].keys|
    ensures Starving(G[n := RemoveVal(G[n], i)], root, order, M - {G[n].keys[i]}, n)
  {
    assert Ok(G, root, n) && Filled(G, root, order, n);
    LeafRemoveShape(G, root, n, i);
    RemoveHolds(G, root, M, n, i);
    var H := G[n := RemoveVal(G[n], i)];
    forall m | m in H && m != n ensures Filled(H, root, order, m) { assert Filled(G, root, order, m); }
  }

  /** Nothing more to do: n is not short after all. */
  lemma SatisfiedStep<N, R>(G: Graph<N, R>, root: N, order: nat, M: map<int, R>, n: N)
    requires Starving(G, root, order, M, n)
    requires |G[n].keys| >= if n == root then 1 else MinKeys(order, G[n].leaf)
    ensures IsTree(G, root, order, M)
  {
    forall m | m in G ensures Filled(G, root, order, m) {}
  }

  /** An empty leaf at the root: the map is empty. */
  lemma EmptyStep<N, R>(G: Graph<N, R>, root: N, order: nat, M: map<int, R>)
    requires Starving(G, root, order, M, root) && |G[root].keys| == 0 && G[root].leaf
    ensures M == map[]
  {
    assert Ok(G, root, root);
    forall m | m in G ensures m == root { assert Ok(G, root, m); }
    forall k ensures k !in M {}
    assert M.Keys == {};
  }

  /** A keyless inner root: its only child becomes the root. */
  lemma CollapseStep<N, R>(G: Graph<N, R>, root: N, order: nat, M: map<int, R>)
    requires Starving(G, root, order, M, root) && |G[root].keys| == 0 && !G[root].leaf
    ensures |G[root].ptrs| == 1 && G[root].ptrs[0].ToNode? && G[root].ptrs[0].node in G && G[root].ptrs[0].node != root
    ensures IsTree(Collapse(G, root), G[root].ptrs[0].node, order, M)
  {
    CollapseShape(G, root);
    CollapseHolds(G, root, M);
    var H, c := Collapse(G, root), G[root].ptrs[0].node;
    forall m | m in H ensures Filled(H, c, order, m) { assert Filled(G, root, order, m); }
  }

  /** The neighbour of a starving node, and the separator between them. */
  lemma StarvingFacts<N, R>(G: Graph<N, R>, root: N, order: nat, M: map<int, R>, n: N)
    requires Starving(G, root, order, M, n) && n != root
    ensures G[n].parent.ToNode? && G[n].parent.node in G
    ensures
      var p := G[n].parent.node;
      && p != n && !G[p].leaf && ToNode(n) in G[p].ptrs
      && 1 <= |G[p].keys| <= order - 1 && |G[p].ptrs| == |G[p].keys| + 1
  {
    assert Ok(G, root, n);
    var p := G[n].parent.node;
    assert Ok(G, root, p);
    var i :| 0 <= i < |G[p].ptrs| && G[p].ptrs[i] == ToNode(n);
    assert ChildOk(G, p, G[p], i);
    assert Filled(G, root, order, p);
  }

  lemma NeighboursOf<N, R>(G: Graph<N, R>, root: N, order: nat, M: map<int, R>, n: N, p: N, idx: nat)
    requires Starving(G, root, order, M, n) && n != root && p in G && G[n].parent == ToNode(p)
    requires idx < |G[p].ptrs| && G[p].ptrs[idx] == ToNode(n)
    ensures
      var i := if idx == 0 then 0 else idx - 1;
      && i + 1 < |G[p].ptrs| && G[p].ptrs[i].ToNode? && G[p].ptrs[i + 1].ToNode?
      && Neighbours(G, root, p, i, G[p].ptrs[i].node, G[p].ptrs[i + 1].node)
  {
    StarvingFacts(G, root, order, M, n);
    assert Ok(G, root, p);
    var i := if idx == 0 then 0 else idx - 1;
    assert ChildOk(G, p, G[p], i) && ChildOk(G, p, G[p], i + 1);
  }

  /** If the neighbours fit into one node they are merged; then the parent may be the one that starves. */
  lemma CoalesceStep<N, R>(G: Graph<N, R>, root: N, order: nat, M: map<int, R>, n: N, p: N, i: nat, a: N, b: N)
    requires Starving(G, root, order, M, n) && Neighbours(G, root, p, i, a, b) && (n == a || n == b)
    requires |G[a].keys| + |G[b].keys| < (if G[a].leaf then order else order - 1)
    ensures
      var H := Coalesce(G, p, i, a, b);
      Starving(H, root, order, M, p) && Climb(H, root, p) < Climb(G, root, n)
  {
    NeighboursFacts(G, root, p, i, a, b);
    CoalesceShape(G, root, p, i, a, b);
    CoalesceHolds(G, root, M, p, i, a, b);
    CoalesceFilled(G, root, order, p, i, a, b, n);
    CoalesceFrame(G, root, p, i, a, b, p);
    CoalesceFrame(G, root, p, i, a, b, root);
    assert Filled(G, root, order, p);
    assert Ok(G, root, n) && Ok(G, root, p);
  }

  /** The separator and the pointer to the right neighbour occur in the parent at their own index first. */
  lemma EntryIsFirst<N, R>(G: Graph<N, R>, root: N, p: N, i: nat, a: N, b: N)
    requires Neighbours(G, root, p, i, a, b)
    ensures forall j :: 0 <= j < i ==> G[p].keys[j] != G[p].keys[i]
    ensures forall j :: 0 <= j < i + 1 ==> G[p].ptrs[j] != ToNode(b)
  {
    assert Ok(G, root, p);
    forall j | 0 <= j < i + 1 ensures G[p].ptrs[j] != ToNode(b) {
      if G[p].ptrs[j] == ToNode(b) { ChildrenDistinct(G, root, p, j, i + 1); }
    }
  }

  // ----- Redistribution -----

  /** a and b divide their joint entries at s; p's separator follows. */
  ghost predicate ShiftedTo<N, R>(G: Graph<N, R>, H: Graph<N, R>, p: N, i: nat, a: N, b: N, s: nat)
    requires p in G && a in G && b in G && i < |G[p].keys|
  {
    var v := Merged(G[a], G[b], G[p].keys[i]);
    && Splittable(v, s)
    && H.Keys == G.Keys
    && H[a] == LeftHalf(v, s, b) && H[b] == RightHalf(v, s)
    && H[p] == G[p].(keys := G[p].keys[i := v.keys[s]])
    && (forall m :: m in G && m != a && m != b && m != p ==>
          H[m] == if v.leaf then G[m]
                  else if ToNode(m) in v.ptrs[s + 1..] then G[m].(parent := ToNode(b))
                  else if ToNode(m) in v.ptrs then G[m].(parent := ToNode(a))
                  else G[m])
  }

  lemma ShiftFilled<N, R>(
    G: Graph<N, R>, H: Graph<N, R>, root: N, order: nat, M: map<int, R>, n: N, p: N, i: nat, a: N, b: N, s: nat)
    requires Starving(G, root, order, M, n) && Neighbours(G, root, p, i, a, b) && (n == a || n == b)
    requires ShiftedTo(G, H, p, i, a, b, s)
    requires |H[a].keys| <= order - 1 && |H[a].keys| >= MinKeys(order, G[a].leaf)
    requires |H[b].keys| <= order - 1 && |H[b].keys| >= MinKeys(order, G[a].leaf)
    ensures IsTree(H, root, order, M)
  {
    ShiftTree(G, H, root, order, M, n, p, i, a, b, s);
    ShiftCounts(G, H, root, order, M, n, p, i, a, b, s);
  }

  lemma ShiftTree<N, R>(
    G: Graph<N, R>, H: Graph<N, R>, root: N, order: nat, M: map<int, R>, n: N, p: N, i: nat, a: N, b: N, s: nat)
    requires Starving(G, root, order, M, n) && Neighbours(G, root, p, i, a, b) && ShiftedTo(G, H, p, i, a, b, s)
    ensures Shape(H, root) && Holds(H, M) && H.Keys == G.Keys
  {
    ShiftIsMergeThenSplit(G, H, root, p, i, a, b, s);
    hide Shape, Holds, Coalesce, Split, SplitAt, Neighbours, Filled;
    var K := Coalesce(G, p, i, a, b);
    CoalesceHolds(G, root, M, p, i, a, b);
    SplitShape(K, root, a, s, b, p, i);
    SplitHolds(K, root, M, a, s, b, p, i);
  }

  lemma ShiftCounts<N, R>(
    G: Graph<N, R>, H: Graph<N, R>, root: N, order: nat, M: map<int, R>, n: N, p: N, i: nat, a: N, b: N, s: nat)
    requires Starving(G, root, order, M, n) && Neighbours(G, root, p, i, a, b) && (n == a || n == b)
    requires ShiftedTo(G, H, p, i, a, b, s) && H.Keys == G.Keys
    requires |H[a].keys| <= order - 1 && |H[a].keys| >= MinKeys(order, G[a].leaf)
    requires |H[b].keys| <= order - 1 && |H[b].keys| >= MinKeys(order, G[a].leaf)
    ensures AllFilled(H, root, order)
  {
    NeighboursFacts(G, root, p, i, a, b);
    hide Shape, Holds, Neighbours, MinKeys, Splittable;
    forall m | m in H ensures Filled(H, root, order, m) {
      if m != a && m != b { assert Filled(G, root, order, m); }
    }
  }

  /** The four ways an entry moves between neighbours, as values of the two nodes. */
  function LeafToRight<N, R>(v: Val<N, R>, w: Val<N, R>): (r: (Val<N, R>, Val<N, R>))
    requires |v.keys| >= 1 && |v.ptrs| == |v.keys|
    ensures r.1.lo == v.keys[|v.keys| - 1]
  {
    var s := |v.keys| - 1;
    (v.(keys := v.keys[..s], ptrs := v.ptrs[..s], hi := v.keys[s]),
     w.(keys := [v.keys[s]] + w.keys, ptrs := [v.ptrs[s]] + w.ptrs, lo := v.keys[s]))
  }

  function NodeToRight<N, R>(v: Val<N, R>, w: Val<N, R>, sep: int): (r: (Val<N, R>, Val<N, R>))
    requires |v.keys| >= 1 && |v.ptrs| == |v.keys| + 1
    ensures r.1.lo == v.keys[|v.keys| - 1]
  {
    var s := |v.keys| - 1;
    (v.(keys := v.keys[..s], ptrs := v.ptrs[..s + 1], hi := v.keys[s]),
     w.(keys := [sep] + w.keys, ptrs := [v.ptrs[s + 1]] + w.ptrs, lo := v.keys[s]))
  }

  function LeafToLeft<N, R>(v: Val<N, R>, w: Val<N, R>): (r: (Val<N, R>, Val<N, R>))
    requires |w.keys| >= 2 && |w.ptrs| == |w.keys|
    ensures r.1.lo == w.keys[1]
  {
    (v.(keys := v.keys + [w.keys[0]], ptrs := v.ptrs + [w.ptrs[0]], hi := w.keys[1]),
     w.(keys := w.keys[1..], ptrs := w.ptrs[1..], lo := w.keys[1]))
  }

  function NodeToLeft<N, R>(v: Val<N, R>, w: Val<N, R>, sep: int): (r: (Val<N, R>, Val<N, R>))
    requires |w.keys| >= 1 && |w.ptrs| == |w.keys| + 1
    ensures r.1.lo == w.keys[0]
  {
    (v.(keys := v.keys + [sep], ptrs := v.ptrs + [w.ptrs[0]], hi := w.keys[0]),
     w.(keys := w.keys[1..], ptrs := w.ptrs[1..], lo := w.keys[0]))
  }

  /** One entry moves from the left node to the right one, or the other way. */
  ghost function Moved<N, R>(toRight: bool, v: Val<N, R>, w: Val<N, R>, kPrime: int)
    : (Val<N, R>, Val<N, R>)
    requires v.leaf == w.leaf
    requires |v.ptrs| == |v.keys| + (if v.leaf then 0 else 1) && |w.ptrs| == |w.keys| + (if w.leaf then 0 else 1)
    requires if toRight then |v.keys| >= 1 else |w.keys| >= (if v.leaf then 2 else 1)
  {
    if toRight then if v.leaf then LeafToRight(v, w) else NodeToRight(v, w, kPrime)
    else if v.leaf then LeafToLeft(v, w) else NodeToLeft(v, w, kPrime)
  }

  lemma MovedSizes<N, R>(toRight: bool, v: Val<N, R>, w: Val<N, R>, kPrime: int)
    requires v.leaf == w.leaf
    requires |v.ptrs| == |v.keys| + (if v.leaf then 0 else 1) && |w.ptrs| == |w.keys| + (if w.leaf then 0 else 1)
    requires if toRight then |v.keys| >= 1 else |w.keys| >= (if v.leaf then 2 else 1)
    ensures var ab, x := Moved(toRight, v, w, kPrime), if toRight then 1 else -1;
      |ab.0.keys| == |v.keys| - x && |ab.1.keys| == |w.keys| + x
  {}

  ghost predicate CanMove<N, R>(order: nat, toRight: bool, v: Val<N, R>, w: Val<N, R>) {
    && v.leaf == w.leaf
    && |v.ptrs| == |v.keys| + (if v.leaf then 0 else 1) && |w.ptrs| == |w.keys| + (if w.leaf then 0 else 1)
    && if toRight then |v.keys| >= 1 && |w.keys| < order - 1
       else |w.keys| >= (if v.leaf then 2 else 1) && |v.keys| < order - 1
  }

  /** The graph after an entry has moved between leaves a and b: the separator is b's new lower bound. */
  ghost function Shifted<N, R>(G: Graph<N, R>, p: N, i: nat, a: N, b: N, ab: (Val<N, R>, Val<N, R>)): Graph<N, R>
    requires p in G && i < |G[p].keys|
  {
    G[a := ab.0][b := ab.1][p := G[p].(keys := G[p].keys[i := ab.1.lo])]
  }

  lemma ShiftedParts<N, R>(G: Graph<N, R>, p: N, i: nat, a: N, b: N, ab: (Val<N, R>, Val<N, R>))
    requires p in G && i < |G[p].keys| && a in G && b in G && a != b && p != a && p != b
    ensures var H := Shifted(G, p, i, a, b, ab); H.Keys == G.Keys && H[a] == ab.0 && H[b] == ab.1
  {}

  lemma CanMoveParts<N, R>(order: nat, toRight: bool, v: Val<N, R>, w: Val<N, R>)
    requires CanMove(order, toRight, v, w)
    ensures v.leaf == w.leaf
    ensures |v.ptrs| == |v.keys| + (if v.leaf then 0 else 1) && |w.ptrs| == |w.keys| + (if w.leaf then 0 else 1)
    ensures if toRight then |v.keys| >= 1 else |w.keys| >= (if v.leaf then 2 else 1)
  {}

  /** The separator may be written first. */
  lemma ShiftedIs<N, R>(G: Graph<N, R>, p: N, i: nat, a: N, b: N, ab: (Val<N, R>, Val<N, R>))
    requires p in G && i < |G[p].keys| && p != a && p != b
    ensures Shifted(G, p, i, a, b, ab) == G[p := G[p].(keys := G[p].keys[i := ab.1.lo])][a := ab.0][b := ab.1]
  {}

  lemma LeafToRightStep<N, R>(G: Graph<N, R>, root: N, order: nat, M: map<int, R>, p: N, i: nat, a: N, b: N)
    requires Starving(G, root, order, M, b) && Neighbours(G, root, p, i, a, b) && G[b].leaf
    requires |G[b].keys| + 1 == MinKeys(order, true) && |G[a].keys| + |G[b].keys| >= order
    ensures |G[a].keys| >= 1 && |G[a].ptrs| == |G[a].keys|
    ensures IsTree(Shifted(G, p, i, a, b, LeafToRight(G[a], G[b])), root, order, M)
  {
    NeighboursFacts(G, root, p, i, a, b);
    NextIsNeighbour(G, root, p, i, a, b);
    assert Filled(G, root, order, a) && Ok(G, root, a);
    var s := |G[a].keys| - 1;
    assert G[a].keys[0] < G[a].keys[s];
    var v, H := Merged(G[a], G[b], G[p].keys[i]), Shifted(G, p, i, a, b, LeafToRight(G[a], G[b]));
    assert v.keys[..s] == G[a].keys[..s] && v.ptrs[..s] == G[a].ptrs[..s];
    assert v.keys[s..] == [G[a].keys[s]] + G[b].keys && v.ptrs[s..] == [G[a].ptrs[s]] + G[b].ptrs;
    assert ShiftedTo(G, H, p, i, a, b, s);
    ShiftFilled(G, H, root, order, M, b, p, i, a, b, s);
  }

  lemma LeafToLeftStep<N, R>(G: Graph<N, R>, root: N, order: nat, M: map<int, R>, p: N, i: nat, a: N, b: N)
    requires Starving(G, root, order, M, a) && Neighbours(G, root, p, i, a, b) && G[a].leaf
    requires |G[a].keys| + 1 == MinKeys(order, true) && |G[a].keys| + |G[b].keys| >= order
    ensures |G[b].keys| >= 2 && |G[b].ptrs| == |G[b].keys|
    ensures IsTree(Shifted(G, p, i, a, b, LeafToLeft(G[a], G[b])), root, order, M)
  {
    NeighboursFacts(G, root, p, i, a, b);
    NextIsNeighbour(G, root, p, i, a, b);
    assert Filled(G, root, order, b) && Ok(G, root, b) && Ok(G, root, a);
    var s := |G[a].keys| + 1;
    var v, H := Merged(G[a], G[b], G[p].keys[i]), Shifted(G, p, i, a, b, LeafToLeft(G[a], G[b]));
    assert G[b].keys[0] < G[b].keys[1];
    assert v.keys[..s] == G[a].keys + [G[b].keys[0]] && v.ptrs[..s] == G[a].ptrs + [G[b].ptrs[0]];
    assert v.keys[s..] == G[b].keys[1..] && v.ptrs[s..] == G[b].ptrs[1..] && v.keys[s] == G[b].keys[1];
    assert ShiftedTo(G, H, p, i, a, b, s);
    ShiftFilled(G, H, root, order, M, a, p, i, a, b, s);
  }

  lemma NodeToRightShifts<N, R>(G: Graph<N, R>, root: N, p: N, i: nat, a: N, b: N, c: N)
    requires Neighbours(G, root, p, i, a, b) && !G[b].leaf && |G[a].keys| >= 1
    requires |G[a].ptrs| == |G[a].keys| + 1 && |G[b].ptrs| == |G[b].keys| + 1
    requires c in G && G[a].ptrs[|G[a].keys|] == ToNode(c) && c != a && c != b && c != p
    ensures
      var S := Shifted(G, p, i, a, b, NodeToRight(G[a], G[b], G[p].keys[i]));
      ShiftedTo(G, S[c := G[c].(parent := ToNode(b))], p, i, a, b, |G[a].keys| - 1)
  {
    NeighboursFacts(G, root, p, i, a, b);
    var s := |G[a].keys| - 1;
    var v := Merged(G[a], G[b], G[p].keys[i]);
    assert Ok(G, root, a) && Ok(G, root, b);
    assert v.keys[..s] == G[a].keys[..s] && v.ptrs[..s + 1] == G[a].ptrs[..s + 1];
    assert v.keys[s + 1..] == [G[p].keys[i]] + G[b].keys && v.ptrs[s + 1..] == [G[a].ptrs[s + 1]] + G[b].ptrs;
    NodeShiftOthers(G, root, p, i, a, b, s, c, b);
  }

  lemma NodeToRightStep<N, R>(G: Graph<N, R>, root: N, order: nat, M: map<int, R>, p: N, i: nat, a: N, b: N)
    requires Starving(G, root, order, M, b) && Neighbours(G, root, p, i, a, b) && !G[b].leaf
    requires |G[b].keys| + 1 == MinKeys(order, false) && |G[a].keys| + |G[b].keys| >= order - 1
    ensures |G[a].keys| >= 1 && |G[a].ptrs| == |G[a].keys| + 1 && G[a].ptrs[|G[a].keys|].ToNode?
    ensures
      var c := G[a].ptrs[|G[a].keys|].node;
      var H := Shifted(G, p, i, a, b, NodeToRight(G[a], G[b], G[p].keys[i]));
      && c in H && c !in {a, b, p} && H[c] == G[c]
      && IsTree(H[c := H[c].(parent := ToNode(b))], root, order, M)
  {
    NeighboursFacts(G, root, p, i, a, b);
    assert Filled(G, root, order, a) && Ok(G, root, a) && Ok(G, root, b);
    assert ChildOk(G, a, G[a], |G[a].keys|);
    assert !G[a].leaf && |G[a].ptrs| == |G[a].keys| + 1 && |G[b].ptrs| == |G[b].keys| + 1 && p in G && i < |G[p].keys|;
    hide Shape, Ok, Neighbours, Holds, ChildOk;
    var c := G[a].ptrs[|G[a].keys|].node;
    NodeToRightShifts(G, root, p, i, a, b, c);
    var S := Shifted(G, p, i, a, b, NodeToRight(G[a], G[b], G[p].keys[i]));
    ShiftFilled(G, S[c := G[c].(parent := ToNode(b))], root, order, M, b, p, i, a, b, |G[a].keys| - 1);
  }

  /** Moving the boundary between two inner nodes to the right divides their merger one place later. */
  lemma ToLeftHalves<N, R>(v: Val<N, R>, w: Val<N, R>, sep: int, b: N)
    requires !v.leaf && !w.leaf && |v.ptrs| == |v.keys| + 1 && |w.ptrs| == |w.keys| + 1 && |w.keys| >= 1
    requires v.parent == w.parent && v.level == w.level && v.next == w.next
    ensures var m, s, r := Merged(v, w, sep), |v.keys| + 1, NodeToLeft(v, w, sep);
      && Splittable(m, s) && m.keys[s] == w.keys[0] == r.1.lo && LeftHalf(m, s, b) == r.0 && RightHalf(m, s) == r.1
  {
    var m, s := Merged(v, w, sep), |v.keys| + 1;
    assert m.keys[..s] == v.keys + [sep] && m.ptrs[..s + 1] == v.ptrs + [w.ptrs[0]];
    assert m.keys[s + 1..] == w.keys[1..] && m.ptrs[s + 1..] == w.ptrs[1..];
  }

  lemma NodeToLeftShifts<N, R>(G: Graph<N, R>, root: N, p: N, i: nat, a: N, b: N, c: N)
    requires Neighbours(G, root, p, i, a, b) && !G[a].leaf && |G[b].keys| >= 1
    requires |G[a].ptrs| == |G[a].keys| + 1 && |G[b].ptrs| == |G[b].keys| + 1
    requires c in G && G[b].ptrs[0] == ToNode(c) && c != a && c != b && c != p
    ensures
      var S := Shifted(G, p, i, a, b, NodeToLeft(G[a], G[b], G[p].keys[i]));
      ShiftedTo(G, S[c := G[c].(parent := ToNode(a))], p, i, a, b, |G[a].keys| + 1)
  {
    NeighboursFacts(G, root, p, i, a, b);
    assert Ok(G, root, a) && Ok(G, root, b);
    NodeShiftOthers(G, root, p, i, a, b, |G[a].keys| + 1, c, a);
    ToLeftHalves(G[a], G[b], G[p].keys[i], b);
    hide Shape, Neighbours, Ok, Merged, LeftHalf, RightHalf, NodeToLeft, Splittable;
  }

  lemma NodeToLeftStep<N, R>(G: Graph<N, R>, root: N, order: nat, M: map<int, R>, p: N, i: nat, a: N, b: N)
    requires Starving(G, root, order, M, a) && Neighbours(G, root, p, i, a, b) && !G[a].leaf
    requires |G[a].keys| + 1 == MinKeys(order, false) && |G[a].keys| + |G[b].keys| >= order - 1
    ensures |G[b].keys| >= 1 && |G[b].ptrs| == |G[b].keys| + 1 && G[b].ptrs[0].ToNode?
    ensures
      var c := G[b].ptrs[0].node;
      var H := Shifted(G, p, i, a, b, NodeToLeft(G[a], G[b], G[p].keys[i]));
      && c in H && c !in {a, b, p} && H[c] == G[c]
      && IsTree(H[c := H[c].(parent := ToNode(a))], root, order, M)
  {
    NeighboursFacts(G, root, p, i, a, b);
    assert Filled(G, root, order, b) && Ok(G, root, b);
    assert ChildOk(G, b, G[b], 0);
    var c := G[b].ptrs[0].node;
    NodeToLeftShifts(G, root, p, i, a, b, c);
    var S := Shifted(G, p, i, a, b, NodeToLeft(G[a], G[b], G[p].keys[i]));
    ShiftFilled(G, S[c := G[c].(parent := ToNode(a))], root, order, M, a, p, i, a, b, |G[a].keys| + 1);
  }

  /** When the boundary between inner neighbours moves past one child c, only c changes its parent, to `to`. */
  lemma NodeShiftOthers<N, R>(G: Graph<N, R>, root: N, p: N, i: nat, a: N, b: N, s: nat, c: N, to: N)
    requires Neighbours(G, root, p, i, a, b) && !G[a].leaf
    requires |G[a].ptrs| >= 1 && |G[b].ptrs| >= 1
    requires
      var v := Merged(G[a], G[b], G[p].keys[i]);
      s + 1 <= |v.ptrs| &&
      if to == b then s + 2 == |G[a].ptrs| && ToNode(c) == v.ptrs[s + 1]
      else s == |G[a].ptrs| && ToNode(c) == v.ptrs[s] && to == a
    ensures
      var v := Merged(G[a], G[b], G[p].keys[i]);
      && (ToNode(c) in v.ptrs[s + 1..] <==> to == b) && ToNode(c) in v.ptrs
      && forall m :: m in G && m != c ==>
           G[m] == if ToNode(m) in v.ptrs[s + 1..] then G[m].(parent := ToNode(b))
                   else if ToNode(m) in v.ptrs then G[m].(parent := ToNode(a))
                   else G[m]
  {
    var v := Merged(G[a], G[b], G[p].keys[i]);
    NeighboursFacts(G, root, p, i, a, b);
    assert G[a].ptrs[0..] == G[a].ptrs && G[b].ptrs[0..] == G[b].ptrs;
    if to == b {
      assert v.ptrs[s + 1..] == [ToNode(c)] + G[b].ptrs;
      assert v.ptrs == G[a].ptrs[..s + 1] + [ToNode(c)] + G[b].ptrs;
    } else {
      assert v.ptrs[s + 1..] == G[b].ptrs[1..];
      assert v.ptrs == G[a].ptrs + [ToNode(c)] + G[b].ptrs[1..];
      if ToNode(c) in G[b].ptrs[1..] {
        var j :| 1 <= j < |G[b].ptrs| && G[b].ptrs[j] == ToNode(c);
        ChildrenDistinct(G, root, b, 0, j);
      }
    }
    forall m | m in G && m != c
      ensures G[m] == if ToNode(m) in v.ptrs[s + 1..] then G[m].(parent := ToNode(b))
                      else if ToNode(m) in v.ptrs then G[m].(parent := ToNode(a))
                      else G[m]
    {
      ChildLink(G, root, a, 0, m);
      ChildLink(G, root, b, 0, m);
    }
  }

  // ----- Merging as the code does it -----

  /** a has taken over b's entries and children and b is gone, but the parent still points to b. */
  ghost function Absorbed<N, R>(G: Graph<N, R>, a: N, b: N, sep: int): Graph<N, R>
    requires a in G && b in G && a != b
  {
    var K := G[a := Merged(G[a], G[b], sep)] - {b};
    if G[a].leaf then K else Adopted(K, a)
  }

  lemma AbsorbAdopts<N, R>(G: Graph<N, R>, root: N, p: N, i: nat, a: N, b: N)
    requires Neighbours(G, root, p, i, a, b) && !G[a].leaf
    ensures a != b && Adoptable(G[a := Merged(G[a], G[b], G[p].keys[i])] - {b}, a)
    ensures ToNode(p) !in Merged(G[a], G[b], G[p].keys[i]).ptrs && ToNode(a) !in Merged(G[a], G[b], G[p].keys[i]).ptrs
  {
    NeighboursFacts(G, root, p, i, a, b);
    var v := Merged(G[a], G[b], G[p].keys[i]);
    forall q | q in v.ptrs ensures q.ToNode? && q.node in G && q.node != p && q.node != a && q.node != b {
      AbsorbedChild(G, root, p, i, a, b, q);
    }
  }

  lemma AbsorbIsCoalesce<N, R>(G: Graph<N, R>, root: N, p: N, i: nat, a: N, b: N)
    requires Neighbours(G, root, p, i, a, b)
    ensures a != b && a != p && b != p
    ensures !G[a].leaf ==> Adoptable(G[a := Merged(G[a], G[b], G[p].keys[i])] - {b}, a)
    ensures
      var A := Absorbed(G, a, b, G[p].keys[i]);
      p in A && A[p] == G[p] && A[p := RemoveVal(A[p], i)] == Coalesce(G, p, i, a, b)
  {
    NeighboursFacts(G, root, p, i, a, b);
    assert Ok(G, root, p);
    var v := Merged(G[a], G[b], G[p].keys[i]);
    if !G[a].leaf {
      AbsorbAdopts(G, root, p, i, a, b);
      forall m | m in G && ToNode(m) in G[a].ptrs ensures G[m].parent == ToNode(a) {
        assert G[a].ptrs[0..] == G[a].ptrs;
        ChildLink(G, root, a, 0, m);
      }
    }
    assert p in G && a in G && b in G && !G[p].leaf && i < |G[p].keys| && |G[p].ptrs| == |G[p].keys| + 1;
    hide Shape, Ok, Neighbours, Adoptable;
    var B, C := Absorbed(G, a, b, G[p].keys[i])[p := RemoveVal(G[p], i)], Coalesce(G, p, i, a, b);
    assert B.Keys == C.Keys;
    forall m | m in C ensures B[m] == C[m] {}
  }

  lemma AbsorbedChild<N, R>(G: Graph<N, R>, root: N, p: N, i: nat, a: N, b: N, q: Ptr<N, R>)
    requires Neighbours(G, root, p, i, a, b) && !G[a].leaf && !G[b].leaf && (q in G[a].ptrs || q in G[b].ptrs)
    ensures q.ToNode? && q.node in G && q.node != a && q.node != b && q.node != p
  {
    NeighboursFacts(G, root, p, i, a, b);
    var x := if q in G[a].ptrs then a else b;
    assert Ok(G, root, x);
    var j :| 0 <= j < |G[x].ptrs| && G[x].ptrs[j] == q;
    assert ChildOk(G, x, G[x], j);
  }

  /** What is due in the parent after a merge: its entry i, with the pointer to the absorbed node. */
  ghost predicate RemovalDue<N, R>(T: Graph<N, R>, n: N, i: nat, key: int, ptr: Ptr<N, R>) {
    && n in T && i < |T[n].keys| && T[n].keys[i] == key
    && (forall j :: 0 <= j < i ==> T[n].keys[j] != key)
    && var at := if T[n].leaf then i else i + 1;
    && |T[n].ptrs| == |T[n].keys| + (if T[n].leaf then 0 else 1)
    && T[n].ptrs[at] == ptr && (forall j :: 0 <= j < at ==> T[n].ptrs[j] != ptr)
  }

  lemma MergeStep<N, R>(G: Graph<N, R>, root: N, order: nat, M: map<int, R>, n: N, p: N, i: nat, a: N, b: N)
    requires Starving(G, root, order, M, n) && Neighbours(G, root, p, i, a, b) && (n == a || n == b)
    requires |G[a].keys| + |G[b].keys| < (if G[a].leaf then order else order - 1)
    ensures a != b && |G[a].keys| + |G[b].keys| <= (if G[a].leaf then order - 1 else order - 2)
    ensures G[a].leaf == G[b].leaf
    ensures !G[a].leaf ==> Adoptable(G[a := Merged(G[a], G[b], G[p].keys[i])] - {b}, a)
    ensures
      var A := Absorbed(G, a, b, G[p].keys[i]);
      && RemovalDue(A, p, i, G[p].keys[i], ToNode(b))
      && Starving(A[p := RemoveVal(A[p], i)], root, order, M, p)
      && Climb(A[p := RemoveVal(A[p], i)], root, p) < Climb(G, root, n)
  {
    AbsorbIsCoalesce(G, root, p, i, a, b);
    CoalesceStep(G, root, order, M, n, p, i, a, b);
    EntryIsFirst(G, root, p, i, a, b);
    NeighboursFacts(G, root, p, i, a, b);
    assert Ok(G, root, p);
  }

  // ----- The decision after a removal -----

  /** The position of the pair (n, neighbour) in the parent, and which of the two is on the left. */
  ghost predicate Pair<N, R>(G: Graph<N, R>, root: N, n: N, p: N, idx: nat, i: nat, a: N, b: N) {
    && Neighbours(G, root, p, i, a, b)
    && (if idx == 0 then i == 0 && n == a else i == idx - 1 && n == b)
  }

  lemma PairOf<N, R>(G: Graph<N, R>, root: N, order: nat, M: map<int, R>, n: N, p: N, idx: nat)
    requires Starving(G, root, order, M, n) && n != root && p in G && G[n].parent == ToNode(p)
    requires idx < |G[p].ptrs| && G[p].ptrs[idx] == ToNode(n)
    ensures
      var i := if idx == 0 then 0 else idx - 1;
      && i < |G[p].keys| && i + 1 < |G[p].ptrs| && G[p].ptrs[i].ToNode? && G[p].ptrs[i + 1].ToNode?
      && (var a, b := G[p].ptrs[i].node, G[p].ptrs[i + 1].node;
          Pair(G, root, n, p, idx, i, a, b) && a in G && b in G && G[a].leaf == G[b].leaf)
  {
    NeighboursOf(G, root, order, M, n, p, idx);
    var i := if idx == 0 then 0 else idx - 1;
    NeighboursFacts(G, root, p, i, G[p].ptrs[i].node, G[p].ptrs[i + 1].node);
  }

  lemma PairFacts<N, R>(
    G: Graph<N, R>, root: N, order: nat, M: map<int, R>, n: N, p: N, idx: nat, i: nat, a: N, b: N)
    requires Starving(G, root, order, M, n) && Pair(G, root, n, p, idx, i, a, b)
    ensures p in G && a in G && b in G && a != b && a != p && b != p && i < |G[p].keys| && n in {a, b}
    ensures G[a].leaf == G[b].leaf && G[a].parent == G[b].parent == ToNode(p)
  {
    NeighboursFacts(G, root, p, i, a, b);
  }

  /** x is the left neighbour of n, or the right one of a leftmost child. */
  ghost predicate Beside<N, R>(G: Graph<N, R>, n: N, x: N) {
    && n in G && x in G && G[n].parent.ToNode? && G[n].parent.node in G
    && var ps := G[G[n].parent.node].ptrs;
       exists i :: 0 <= i < |ps| && |ps| >= 2 && ps[i] == ToNode(n) && ps[if i == 0 then 1 else i - 1] == ToNode(x)
  }

  lemma PairBeside<N, R>(
    G: Graph<N, R>, root: N, order: nat, M: map<int, R>, n: N, p: N, idx: nat, i: nat, a: N, b: N)
    requires Starving(G, root, order, M, n) && Pair(G, root, n, p, idx, i, a, b) && G[n].parent == ToNode(p)
    requires p in G && idx < |G[p].ptrs| && G[p].ptrs[idx] == ToNode(n)
    ensures Beside(G, n, if n == a then b else a)
  {
    NeighboursFacts(G, root, p, i, a, b);
  }

  /** If the two do not fit into one node, moving one entry over the boundary makes both large enough. */
  lemma BorrowStep<N, R>(
    G: Graph<N, R>, root: N, order: nat, M: map<int, R>, n: N, p: N, idx: nat, i: nat, a: N, b: N)
    requires Starving(G, root, order, M, n) && Pair(G, root, n, p, idx, i, a, b)
    requires |G[n].keys| < MinKeys(order, G[n].leaf)
    requires |G[a].keys| + |G[b].keys| >= (if G[n].leaf then order else order - 1)
    ensures a in G && b in G && p in G && i < |G[p].keys|
    ensures CanMove(order, idx != 0, G[a], G[b])
    ensures
      var H := Shifted(G, p, i, a, b, Moved(idx != 0, G[a], G[b], G[p].keys[i]));
      if G[n].leaf then IsTree(H, root, order, M)
      else
        var q := if idx != 0 then G[a].ptrs[|G[a].keys|] else G[b].ptrs[0];
        && q.ToNode? && q.node in H && H[q.node] == G[q.node] && q.node !in {a, b, p}
        && IsTree(H[q.node := H[q.node].(parent := ToNode(n))], root, order, M)
  {
    NeighboursFacts(G, root, p, i, a, b);
    assert Filled(G, root, order, if n == a then b else a);
    if idx != 0 {
      if G[n].leaf { LeafToRightStep(G, root, order, M, p, i, a, b); }
      else { NodeToRightStep(G, root, order, M, p, i, a, b); }
    } else {
      if G[n].leaf { LeafToLeftStep(G, root, order, M, p, i, a, b); }
      else { NodeToLeftStep(G, root, order, M, p, i, a, b); }
    }
  }

  /** Where a stored key is, and that its record occurs at its own index first. */
  lemma DeletionStart<N, R>(G: Graph<N, R>, root: N, order: nat, M: map<int, R>, n: N, k: int) returns (i: nat)
    requires IsTree(G, root, order, M) && Injective(M) && k in M
    requires n in G && G[n].leaf && G[n].lo <= k < G[n].hi
    ensures RemovalDue(G, n, i, k, ToRecord(M[k]))
    ensures Starving(G[n := RemoveVal(G[n], i)], root, order, M - {k}, n)
  {
    LeafDecides(G, root, M, n, k);
    i :| 0 <= i < |G[n].keys| && G[n].keys[i] == k;
    assert Ok(G, root, n);
    RemoveStep(G, root, order, M, n, i);
  }
}
