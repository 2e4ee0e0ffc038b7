/**
 Insertion on graphs. Between its array updates the code passes through states that are not trees: a node
 with one key too many, a new right half that no node points to yet. Each is described here by the tree it
 will become, and every step is shown to lead to the next such state or to a tree.
 */
module BPlusInsertion {
  import opened BPlusGraph
  import opened BPlusSplit
  import opened BPlusMap

  // ----- A tree in the middle of a split -----

  /** The same, but n has one key too many and must split. */
  ghost predicate Bursting<N, R>(G: Graph<N, R>, root: N, order: nat, M: map<int, R>, n: N) {
    && order >= 3 && Shape(G, root) && Holds(G, M)
    && n in G
    && |G[n].keys| == order && FilledBut(G, root, order, n)
  }

  /**
   n has just been divided: T is the bursting tree G with n's upper half moved to `right`, which no node
   points to yet; key separates the halves.
   */
  ghost predicate Pending<N, R>(
    G: Graph<N, R>, root: N, order: nat, M: map<int, R>, n: N, key: int, right: N, T: Graph<N, R>)
  {
    && Bursting(G, root, order, M, n) && right !in G
    && var s := MinKeys(order, G[n].leaf);
    && Splittable(G[n], s) && key == G[n].keys[s] && T == Halves(G, n, s, right)
  }

  /** The number of levels between n and the root. */
  ghost function Climb<N, R>(G: Graph<N, R>, root: N, n: N): nat {
    if root in G && n in G && G[root].level >= G[n].level then G[root].level - G[n].level else 0
  }

  lemma BurstingSplittable<N, R>(G: Graph<N, R>, root: N, order: nat, M: map<int, R>, n: N)
    requires Bursting(G, root, order, M, n)
    ensures Splittable(G[n], MinKeys(order, G[n].leaf))
  {
    assert Ok(G, root, n);
    assert G[n].leaf ==> G[n].keys[0] < G[n].keys[MinKeys(order, true)];
  }

  /** Inserting into a leaf with room. */
  lemma InsertStep<N, R>(G: Graph<N, R>, root: N, order: nat, M: map<int, R>, n: N, i: nat, k: int, r: R)
    requires IsTree(G, root, order, M) && n in G && G[n].leaf && G[n].lo <= k < G[n].hi && k !in M
    requires Slot(G[n].keys, i, k) && |G[n].keys| < order - 1
    ensures i <= |G[n].keys| && |G[n].ptrs| == |G[n].keys|
      && IsTree(G[n := InsertVal(G[n], i, k, r)], root, order, M[k := r])
  {
    assert Ok(G, root, n);
    LeafInsertShape(G, root, n, i, k, r);
    InsertHolds(G, M, n, i, k, r);
    var H := G[n := InsertVal(G[n], i, k, r)];
    forall m | m in H ensures Filled(H, root, order, m) { assert Filled(G, root, order, m); }
  }

  /** Inserting into a full leaf makes it burst. */
  lemma OverfillStep<N, R>(G: Graph<N, R>, root: N, order: nat, M: map<int, R>, n: N, i: nat, k: int, r: R)
    requires IsTree(G, root, order, M) && n in G && G[n].leaf && G[n].lo <= k < G[n].hi && k !in M
    requires Slot(G[n].keys, i, k) && |G[n].keys| == order - 1
    ensures |G[n].ptrs| == |G[n].keys|
    ensures Bursting(G[n := InsertVal(G[n], i, k, r)], root, order, M[k := r], n)
  {
    assert Ok(G, root, n);
    LeafInsertShape(G, root, n, i, k, r);
    InsertHolds(G, M, n, i, k, r);
    var H := G[n := InsertVal(G[n], i, k, r)];
    forall m | m in H && m != n ensures Filled(H, root, order, m) { assert Filled(G, root, order, m); }
  }

  /** What the code that links the new half needs to know. */
  lemma HalvesFacts<N, R>(G: Graph<N, R>, root: N, n: N, s: nat, right: N)
    requires Shape(G, root) && n in G && right !in G && Splittable(G[n], s)
    ensures
      var T := Halves(G, n, s, right);
      && n in T && right in T && n != right && (T[n].parent.NullPtr? <==> n == root)
      && (n != root ==>
            T[n].parent.ToNode? && T[n].parent.node in T &&
            (var p := T[n].parent.node;
             p in G && T[p] == G[p] && G[n].parent == ToNode(p)
             && p != n && p != right && !T[p].leaf && ToNode(n) in T[p].ptrs && |T[p].ptrs| == |T[p].keys| + 1))
  {
    assert Ok(G, root, n);
    if n != root {
      var p := G[n].parent.node;
      assert Ok(G, root, p);
      var i :| 0 <= i < |G[p].ptrs| && G[p].ptrs[i] == ToNode(n);
      assert ChildOk(G, p, G[p], i);
      if !G[n].leaf { ChildLink(G, root, n, s + 1, p); }
    }
    if !G[n].leaf { ChildLink(G, root, n, s + 1, n); }
  }

  lemma PendingFacts<N, R>(
    G: Graph<N, R>, root: N, order: nat, M: map<int, R>, n: N, key: int, right: N, T: Graph<N, R>)
    requires Pending(G, root, order, M, n, key, right, T)
    ensures order >= 3 && n in T && right in T && n != right
    ensures T[n].parent.NullPtr? <==> n == root
    ensures n != root ==>
      T[n].parent.ToNode? && T[n].parent.node in T &&
      (var p := T[n].parent.node;
       p != n && p != right && !T[p].leaf && ToNode(n) in T[p].ptrs && |T[p].ptrs| == |T[p].keys| + 1)
  {
    HalvesFacts(G, root, n, MinKeys(order, G[n].leaf), right);
  }

  /** left and right under a new root r. */
  ghost function UnderRoot<N, R>(T: Graph<N, R>, left: N, key: int, right: N, r: N): Graph<N, R>
    requires left in T && right in T
  {
    T[left := T[left].(parent := ToNode(r))]
     [right := T[right].(parent := ToNode(r))]
     [r := Val(false, [key], [ToNode(left), ToNode(right)], NullPtr, NullPtr, T[left].level + 1, MIN_KEY, KEY_LIMIT)]
  }

  /** A divided root goes under a new root. */
  lemma PendingRoot<N, R>(
    G: Graph<N, R>, root: N, order: nat, M: map<int, R>, key: int, right: N, T: Graph<N, R>, r: N)
    requires Pending(G, root, order, M, root, key, right, T) && r !in T
    ensures root in T && right in T && IsTree(UnderRoot(T, root, key, right, r), r, order, M)
  {
    var s := MinKeys(order, G[root].leaf);
    assert Rooted(G, root, s, right, r) == UnderRoot(T, root, key, right, r);
    RootedShape(G, root, s, right, r);
    RootedHolds(G, M, root, s, right, r);
    RootedFilled(G, root, order, s, right, r);
  }

  /** A divided node below the root: either its parent has room for the new half, or the parent bursts in turn. */
  lemma PendingParent<N, R>(
    G: Graph<N, R>, root: N, order: nat, M: map<int, R>, n: N, key: int, right: N, T: Graph<N, R>, p: N, idx: nat)
    requires Pending(G, root, order, M, n, key, right, T) && n != root
    requires p in T && n in T && T[n].parent == ToNode(p)
    requires idx < |T[p].ptrs| && T[p].ptrs[idx] == ToNode(n)
    ensures idx <= |T[p].keys| && |T[p].keys| < order && |T[p].ptrs| == |T[p].keys| + 1 && right != p && n != p
    ensures
      var H := Linked(T, p, idx, key, right);
      && (|T[p].keys| < order - 1 ==> IsTree(H, root, order, M))
      && (|T[p].keys| == order - 1 ==> Bursting(H, root, order, M, p) && Climb(H, root, p) < Climb(G, root, n))
  {
    PendingFacts(G, root, order, M, n, key, right, T);
    assert Ok(G, root, n);
    if !G[n].leaf { ChildLink(G, root, n, MinKeys(order, G[n].leaf) + 1, n); }
    assert Ok(G, root, p) && Filled(G, root, order, p);
    assert ChildOk(G, p, G[p], idx);
    var s := MinKeys(order, G[n].leaf);
    assert SplitAt(G, root, n, s, right, p, idx);
    SplitFrame(G, root, n, s, right, p, idx, p);
    SplitFrame(G, root, n, s, right, p, idx, root);
    SplitShape(G, root, n, s, right, p, idx);
    SplitHolds(G, root, M, n, s, right, p, idx);
    SplitFilled(G, root, order, n, s, right, p, idx);
    var K := Split(G, root, n, s, right, p, idx);
    if |G[p].keys| < order - 1 {
      forall m | m in K ensures Filled(K, root, order, m) {
        if m == p { assert Filled(G, root, order, p); }
      }
    }
  }

  /** Every child of n is made to name n as its parent. */
  ghost function Adopted<N, R>(T: Graph<N, R>, n: N): Graph<N, R>
    requires n in T
  {
    map m | m in T :: if ToNode(m) in T[n].ptrs then T[m].(parent := ToNode(n)) else T[m]
  }

  ghost predicate Adoptable<N, R>(T: Graph<N, R>, n: N) {
    n in T && !T[n].leaf && forall p :: p in T[n].ptrs ==> p.ToNode? && p.node in T
  }

  /** Dividing an inner node's arrays and letting the new node adopt its children amounts to `Halves`. */
  lemma HalvesByAdoption<N, R>(G: Graph<N, R>, root: N, n: N, s: nat, right: N)
    requires Shape(G, root) && n in G && !G[n].leaf && right !in G && Splittable(G[n], s)
    ensures Adopted(G[n := LeftHalf(G[n], s, right)][right := RightHalf(G[n], s)], right) == Halves(G, n, s, right)
  {
    var A := Adopted(G[n := LeftHalf(G[n], s, right)][right := RightHalf(G[n], s)], right);
    var B := Halves(G, n, s, right);
    ChildLink(G, root, n, s + 1, n);
    ChildLink(G, root, n, s + 1, right);
    assert A.Keys == B.Keys;
    forall m | m in B ensures A[m] == B[m] {}
  }

  /** v after the separator and the pointer to `right` have gone in at idx. */
  function LinkedVal<N, R>(v: Val<N, R>, idx: nat, key: int, right: N): Val<N, R>
    requires idx <= |v.keys| && idx < |v.ptrs|
  {
    v.(keys := Ins(v.keys, idx, key), ptrs := Ins(v.ptrs, idx + 1, ToNode(right)))
  }

  ghost function DividedGraph<N, R>(T: Graph<N, R>, n: N, v: Val<N, R>, s: nat, right: N): Graph<N, R>
    requires Divisible(v, s)
  {
    T[n := LeftHalf(v, s, right)][right := RightHalf(v, s)]
  }

  /** Dividing the arrays of a bursting inner node, and adoption of the moved children, leave the split pending. */
  lemma DivideStep<N, R>(
    T: Graph<N, R>, idx: nat, key: int, x: N, G: Graph<N, R>, root: N, order: nat, M: map<int, R>, n: N, right: N)
    requires n in T && idx <= |T[n].keys| && idx < |T[n].ptrs| && G == Linked(T, n, idx, key, x)
    requires Bursting(G, root, order, M, n) && right !in T && !T[n].leaf
    ensures
      var v, s := LinkedVal(T[n], idx, key, x), MinKeys(order, false);
      && Splittable(v, s)
      && var L := DividedGraph(T, n, v, s, right);
      && Adoptable(L, right)
      && Pending(G, root, order, M, n, v.keys[s], right, Adopted(L, right))
  {
    BurstingSplittable(G, root, order, M, n);
    var v, s := G[n], MinKeys(order, false);
    var L := DividedGraph(T, n, v, s, right);
    assert L == DividedGraph(G, n, v, s, right);
    HalvesByAdoption(G, root, n, s, right);
    forall p | p in L[right].ptrs ensures p.ToNode? && p.node in L {
      assert Ok(G, root, n);
      var i :| 0 <= i < |v.ptrs| && v.ptrs[i] == p;
      assert ChildOk(G, n, v, i);
    }
  }

  /** Dividing a full leaf with one more entry leaves the split pending. */
  lemma LeafDivideStep<N, R>(
    T: Graph<N, R>, root: N, order: nat, M: map<int, R>, n: N, i: nat, k: int, r: R, right: N)
    requires IsTree(T, root, order, M) && n in T && T[n].leaf && T[n].lo <= k < T[n].hi && k !in M
    requires Slot(T[n].keys, i, k) && |T[n].keys| == order - 1 && right !in T
    ensures |T[n].ptrs| == |T[n].keys| && i <= |T[n].keys|
    ensures
      var v, s := InsertVal(T[n], i, k, r), MinKeys(order, true);
      && Splittable(v, s)
      && Pending(T[n := v], root, order, M[k := r], n, v.keys[s], right, DividedGraph(T, n, v, s, right))
  {
    OverfillStep(T, root, order, M, n, i, k, r);
    var v, s := InsertVal(T[n], i, k, r), MinKeys(order, true);
    var G := T[n := v];
    BurstingSplittable(G, root, order, M[k := r], n);
    assert DividedGraph(T, n, v, s, right) == Halves(G, n, s, right);
  }
}
