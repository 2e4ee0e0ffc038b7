/**
 What a search tree means: the finite map held by its leaves, how each structural step affects it, how full
 the nodes are, and where a key is found.
 */
module BPlusMap {
  import opened BPlusGraph
  import opened BPlusSplit
  import opened BPlusMerge

  // ----- The finite map a tree stands for -----

  ghost predicate Stores<N, R>(G: Graph<N, R>, n: N, k: int) {
    n in G && G[n].leaf && k in G[n].keys
  }

  /** Every entry of the leaf is an entry of the map. */
  ghost predicate Agrees<N, R>(v: Val<N, R>, M: map<int, R>) {
    && |v.ptrs| == |v.keys|
    && forall i :: 0 <= i < |v.keys| ==> v.keys[i] in M && v.ptrs[i] == ToRecord(M[v.keys[i]])
  }

  /** The leaves of G hold exactly the entries of M. */
  ghost predicate Holds<N, R>(G: Graph<N, R>, M: map<int, R>) {
    && (forall n {:trigger Agrees(G[n], M)} :: n in G && G[n].leaf ==> Agrees(G[n], M))
    && (forall k {:trigger k in M} :: k in M ==> exists n {:trigger Stores(G, n, k)} :: n in G && Stores(G, n, k))
  }

  /** The leaf whose interval contains k decides whether k is in the map. */
  lemma LeafDecides<N, R>(G: Graph<N, R>, root: N, M: map<int, R>, n: N, k: int)
    requires Shape(G, root) && Holds(G, M) && n in G && G[n].leaf && G[n].lo <= k < G[n].hi
    ensures k in M <==> k in G[n].keys
    ensures Agrees(G[n], M)
  {
    assert Ok(G, root, n);
    assert Agrees(G[n], M);
    if k in M {
      var m :| m in G && Stores(G, m, k);
      assert Ok(G, root, m);
      SameLevelUnique(G, root, n, m, k);
    }
  }

  lemma InsertHolds<N, R>(G: Graph<N, R>, M: map<int, R>, n: N, i: nat, k: int, r: R)
    requires Holds(G, M) && n in G && G[n].leaf && k !in M
    requires i <= |G[n].keys| && |G[n].ptrs| == |G[n].keys|
    ensures Holds(G[n := InsertVal(G[n], i, k, r)], M[k := r])
  {
    var H, M' := G[n := InsertVal(G[n], i, k, r)], M[k := r];
    forall m | m in H && H[m].leaf ensures Agrees(H[m], M') {
      assert Agrees(G[m], M);
    }
    forall x | x in M' ensures exists m {:trigger Stores(H, m, x)} :: m in H && Stores(H, m, x) {
      if x == k {
        assert H[n].keys[i] == k;
        assert Stores(H, n, k);
      } else {
        var m :| m in G && Stores(G, m, x);
        var j :| 0 <= j < |G[m].keys| && G[m].keys[j] == x;
        assert m == n ==> H[n].keys[if j < i then j else j + 1] == x;
        assert Stores(H, m, x);
      }
    }
  }

  /** The keys of a leaf are distinct and lie in its interval. */
  lemma LeafKeys<N, R>(G: Graph<N, R>, root: N, n: N)
    requires Shape(G, root) && n in G && G[n].leaf
    ensures G[n].level == 0 && Sorted(G[n].keys) && forall i :: 0 <= i < |G[n].keys| ==>
      G[n].lo <= G[n].keys[i] < G[n].hi
  {
    assert Ok(G, root, n);
  }

  lemma RemoveHolds<N, R>(G: Graph<N, R>, root: N, M: map<int, R>, n: N, i: nat)
    requires Shape(G, root) && Holds(G, M) && n in G && G[n].leaf
    requires i < |G[n].keys| && |G[n].ptrs| == |G[n].keys|
    ensures Holds(G[n := RemoveVal(G[n], i)], M - {G[n].keys[i]})
  {
    hide Shape, Ok;
    var k := G[n].keys[i];
    var H, M' := G[n := RemoveVal(G[n], i)], M - {k};
    LeafKeys(G, root, n);
    forall m | m in H && H[m].leaf ensures Agrees(H[m], M') {
      assert Agrees(G[m], M);
      LeafKeys(G, root, m);
      if k in G[m].keys { SameLevelUnique(G, root, n, m, k); }
    }
    forall x | x in M' ensures exists m {:trigger Stores(H, m, x)} :: m in H && Stores(H, m, x) {
      var m :| m in G && Stores(G, m, x);
      var j :| 0 <= j < |G[m].keys| && G[m].keys[j] == x;
      assert m == n ==> H[n].keys[if j < i then j else j - 1] == x;
      assert Stores(H, m, x);
    }
  }

  lemma SplitHolds<N, R>(G: Graph<N, R>, root: N, M: map<int, R>, n: N, s: nat, right: N, p: N, idx: nat)
    requires SplitAt(G, root, n, s, right, p, idx) && Holds(G, M)
    ensures Holds(Split(G, root, n, s, right, p, idx), M)
  {
    var H := Split(G, root, n, s, right, p, idx);
    SplitFrame(G, root, n, s, right, p, idx, n);
    assert Ok(G, root, p) && Ok(G, root, n);
    forall m | m in H && H[m].leaf ensures Agrees(H[m], M) {
      if m == right { assert Agrees(G[n], M); }
      else { SplitFrame(G, root, n, s, right, p, idx, m); assert Agrees(G[m], M); }
    }
    forall k | k in M ensures exists m {:trigger Stores(H, m, k)} :: m in H && Stores(H, m, k) {
      var m :| m in G && Stores(G, m, k);
      SplitFrame(G, root, n, s, right, p, idx, m);
      if m == n {
        var j :| 0 <= j < |G[n].keys| && G[n].keys[j] == k;
        if j < s { assert H[n].keys[j] == k; } else { assert H[right].keys[j - s] == k; }
        assert Stores(H, if j < s then n else right, k);
      } else {
        assert Stores(H, m, k);
      }
    }
  }

  lemma GrowHolds<N, R>(G: Graph<N, R>, root: N, M: map<int, R>, r: N)
    requires root in G && r !in G && Holds(G, M)
    ensures Holds(Grow(G, root, r), M)
  {
    var H := Grow(G, root, r);
    forall m | m in H && H[m].leaf ensures Agrees(H[m], M) { assert Agrees(G[m], M); }
    forall k | k in M ensures exists m {:trigger Stores(H, m, k)} :: m in H && Stores(H, m, k) {
      var m :| m in G && Stores(G, m, k);
      assert Stores(H, m, k);
    }
  }

  lemma RootedHolds<N, R>(G: Graph<N, R>, M: map<int, R>, n: N, s: nat, right: N, r: N)
    requires Shape(G, n) && Splittable(G[n], s) && right !in G && r !in G && r != right && Holds(G, M)
    ensures Holds(Rooted(G, n, s, right, r), M)
  {
    RootedIsSplitOfGrown(G, n, s, right, r);
    GrowHolds(G, n, M, r);
    SplitHolds(Grow(G, n, r), r, M, n, s, right, r, 0);
  }

  lemma CollapseHolds<N, R>(G: Graph<N, R>, root: N, M: map<int, R>)
    requires root in G && !G[root].leaf && Holds(G, M)
    requires |G[root].ptrs| == 1 && G[root].ptrs[0].ToNode? && G[root].ptrs[0].node in G
    ensures Holds(Collapse(G, root), M)
  {
    var H := Collapse(G, root);
    forall m | m in H && H[m].leaf ensures Agrees(H[m], M) { assert Agrees(G[m], M); }
    forall k | k in M ensures exists m {:trigger Stores(H, m, k)} :: m in H && Stores(H, m, k) {
      var m :| m in G && Stores(G, m, k);
      assert Stores(H, m, k);
    }
  }

  lemma CoalesceHolds<N, R>(G: Graph<N, R>, root: N, M: map<int, R>, p: N, i: nat, a: N, b: N)
    requires Neighbours(G, root, p, i, a, b) && Holds(G, M)
    ensures Holds(Coalesce(G, p, i, a, b), M)
  {
    var H := Coalesce(G, p, i, a, b);
    NeighboursFacts(G, root, p, i, a, b);
    CoalesceFrame(G, root, p, i, a, b, a);
    forall m | m in H && H[m].leaf ensures Agrees(H[m], M) {
      CoalesceFrame(G, root, p, i, a, b, m);
      assert Agrees(G[m], M);
      if m == a { assert Agrees(G[b], M); }
    }
    forall k | k in M ensures exists m {:trigger Stores(H, m, k)} :: m in H && Stores(H, m, k) {
      var m :| m in G && Stores(G, m, k);
      if m == b {
        assert Stores(H, a, k);
      } else {
        CoalesceFrame(G, root, p, i, a, b, m);
        assert Stores(H, m, k);
      }
    }
  }

  // ----- Occupancy -----

  /** The place to split a sequence that is too long: half its length, rounded up. */
  function Cut(length: nat): nat {
    if length % 2 == 0 then length / 2 else length / 2 + 1
  }

  /** The least number of keys of a node below the root; also the number a split leaves on the left. */
  function MinKeys(order: nat, leaf: bool): nat
    requires order >= 3
  {
    if leaf then Cut(order - 1) else Cut(order) - 1
  }

  ghost predicate Filled<N, R>(G: Graph<N, R>, root: N, order: nat, n: N)
    requires order >= 3 && n in G
  {
    |G[n].keys| <= order - 1 && |G[n].keys| >= if n == root then 1 else MinKeys(order, G[n].leaf)
  }

  /** Every node except possibly x has between the minimum and order - 1 keys. */
  ghost predicate FilledBut<N, R>(G: Graph<N, R>, root: N, order: nat, x: N)
    requires order >= 3
  {
    forall n {:trigger Filled(G, root, order, n)} :: n in G && n != x ==> Filled(G, root, order, n)
  }

  ghost predicate AllFilled<N, R>(G: Graph<N, R>, root: N, order: nat)
    requires order >= 3
  {
    forall n {:trigger Filled(G, root, order, n)} :: n in G ==> Filled(G, root, order, n)
  }

  /** Splitting the one overfull node leaves at most its parent overfull. */
  lemma SplitFilled<N, R>(G: Graph<N, R>, root: N, order: nat, n: N, s: nat, right: N, p: N, idx: nat)
    requires order >= 3 && SplitAt(G, root, n, s, right, p, idx)
    requires FilledBut(G, root, order, n) && |G[n].keys| == order && s == MinKeys(order, G[n].leaf)
    ensures
      var H := Split(G, root, n, s, right, p, idx);
      && FilledBut(H, root, order, p)
      && p in H && |H[p].keys| == |G[p].keys| + 1
  {
    var H := Split(G, root, n, s, right, p, idx);
    SplitFrame(G, root, n, s, right, p, idx, n);
    forall m | m in H && m != p ensures Filled(H, root, order, m) {
      if m != right {
        SplitFrame(G, root, n, s, right, p, idx, m);
        if m != n { assert Filled(G, root, order, m); }
      }
    }
  }

  lemma RootedFilled<N, R>(G: Graph<N, R>, n: N, order: nat, s: nat, right: N, r: N)
    requires order >= 3 && Shape(G, n) && Splittable(G[n], s) && right !in G && r !in G && r != right
    requires FilledBut(G, n, order, n) && |G[n].keys| == order && s == MinKeys(order, G[n].leaf)
    ensures AllFilled(Rooted(G, n, s, right, r), r, order)
  {
    var H := Rooted(G, n, s, right, r);
    forall m | m in H ensures Filled(H, r, order, m) {
      if m != r && m != n && m != right { assert Filled(G, n, order, m); }
    }
  }

  /** A merge that fits leaves at most the parent short of keys. */
  lemma CoalesceFilled<N, R>(G: Graph<N, R>, root: N, order: nat, p: N, i: nat, a: N, b: N, x: N)
    requires order >= 3 && Neighbours(G, root, p, i, a, b) && (x == a || x == b) && FilledBut(G, root, order, x)
    requires |G[a].keys| + |G[b].keys| < (if G[a].leaf then order else order - 1)
    ensures
      var H := Coalesce(G, p, i, a, b);
      && FilledBut(H, root, order, p)
      && p in H && |H[p].keys| == |G[p].keys| - 1
  {
    var H := Coalesce(G, p, i, a, b);
    NeighboursFacts(G, root, p, i, a, b);
    CoalesceFrame(G, root, p, i, a, b, p);
    assert Filled(G, root, order, if x == a then b else a);
    forall m | m in H && m != p ensures Filled(H, root, order, m) {
      CoalesceFrame(G, root, p, i, a, b, m);
      if m != a { assert Filled(G, root, order, m); }
    }
  }

  // ----- Whole trees -----

  ghost predicate Injective<R>(M: map<int, R>) {
    forall j, k {:trigger M[j], M[k]} :: j in M && k in M && M[j] == M[k] ==> j == k
  }

  /** G is a balanced, sorted, sufficiently filled search tree for the map M. */
  ghost predicate IsTree<N, R>(G: Graph<N, R>, root: N, order: nat, M: map<int, R>) {
    order >= 3 && Shape(G, root) && AllFilled(G, root, order) && Holds(G, M)
  }

  /**
   No node has more than order - 1 keys; a leaf below the root is at least half full, and so is an inner node, counted
   in children.
   */
  ghost predicate HalfFull<N, R>(G: Graph<N, R>, root: N, order: nat) {
    forall n {:trigger G[n]} :: n in G ==>
      && 1 <= |G[n].keys| <= order - 1
      && (n != root && G[n].leaf ==> 2 * |G[n].keys| >= order - 1)
      && (n != root && !G[n].leaf ==> 2 * (|G[n].keys| + 1) >= order)
  }

  lemma TreeIsHalfFull<N, R>(G: Graph<N, R>, root: N, order: nat, M: map<int, R>)
    requires IsTree(G, root, order, M)
    ensures HalfFull(G, root, order)
  {
    hide Shape, Holds;
    forall n | n in G
      ensures 1 <= |G[n].keys| <= order - 1
      ensures n != root && G[n].leaf ==> 2 * |G[n].keys| >= order - 1
      ensures n != root && !G[n].leaf ==> 2 * (|G[n].keys| + 1) >= order
    {
      assert Filled(G, root, order, n);
    }
  }

  // ----- Searching -----

  /** The child whose interval contains k is the one after the last separator not above k. */
  lemma DescendStep<N, R>(G: Graph<N, R>, root: N, n: N, i: nat, k: int)
    requires Shape(G, root) && n in G && !G[n].leaf && G[n].lo <= k < G[n].hi
    requires i <= |G[n].keys| && (i > 0 ==> G[n].keys[i - 1] <= k) && (i < |G[n].keys| ==> k < G[n].keys[i])
    ensures i < |G[n].ptrs| && G[n].ptrs[i].ToNode?
    ensures
      var c := G[n].ptrs[i].node;
      c in G && G[c].level < G[n].level && G[c].lo <= k < G[c].hi
  {
    assert Ok(G, root, n);
    assert ChildOk(G, n, G[n], i);
  }

  lemma RootCovers<N, R>(G: Graph<N, R>, root: N, k: int)
    requires Shape(G, root) && MIN_KEY <= k < KEY_LIMIT
    ensures G[root].lo <= k < G[root].hi
  {
    assert Ok(G, root, root);
  }

  /** A leaf's keys are sorted and its pointers lead to the records of the map. */
  lemma LeafContents<N, R>(G: Graph<N, R>, root: N, M: map<int, R>, n: N)
    requires Shape(G, root) && Holds(G, M) && n in G && G[n].leaf
    ensures Sorted(G[n].keys) && Agrees(G[n], M)
  {
    assert Ok(G, root, n);
    assert Agrees(G[n], M);
  }

  /** A single leaf is a tree. */
  lemma SingleLeaf<N, R>(n: N, order: nat, k: int, r: R)
    requires order >= 3 && MIN_KEY <= k < KEY_LIMIT
    ensures
      IsTree(map[n := Val(true, [k], [ToRecord(r)], NullPtr, NullPtr, 0, MIN_KEY, KEY_LIMIT)], n, order, map[k := r])
  {
    var G := map[n := Val(true, [k], [ToRecord(r)], NullPtr, NullPtr, 0, MIN_KEY, KEY_LIMIT)];
    assert G[n].keys[0] == k;
    assert Stores(G, n, k);
  }
}
