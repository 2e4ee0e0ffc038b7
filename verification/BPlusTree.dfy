/**
 The in-memory B+ tree of bpt.cc. As in the source, the functions take the root and return the new one, and
 update the nodes in place; T is the graph the heap holds, repr the objects it is made of.
 */
module BPlusTree {
  import opened BPlusGraph
  import opened BPlusSplit
  import opened BPlusMerge
  import opened BPlusMap
  import opened BPlusInsertion
  import opened BPlusDeletion
  import opened BPlusNode

  // ----- The heap against a graph -----

  ghost predicate StoredAt(n: Node, order: nat, v: Val<Node, Record>)
    reads n, n.keys, n.pointers
  {
    n.keys.Length == order - 1 && n.pointers.Length == order && n.numKeys <= order - 1 && n.Value() == v
  }

  /** The nodes of T lie in repr as T says, with their arrays, and share no arrays. */
  ghost predicate Stored(order: nat, T: Graph<Node, Record>, repr: set<object>)
    reads repr
  {
    && (forall n {:trigger T[n]} :: n in T ==>
          n in repr && n.keys in repr && n.pointers in repr && StoredAt(n, order, T[n]))
    && (forall m, n :: m in T && n in T && m != n ==> m.keys != n.keys && m.pointers != n.pointers)
  }

  /** A newly allocated node joins the graph. */
  lemma AddStored(order: nat, T: Graph<Node, Record>, repr: set<object>, r: Node)
    requires Stored(order, T, repr) && r !in T && r.Fits() && StoredAt(r, order, r.Value())
    requires r.keys !in repr && r.pointers !in repr
    ensures Stored(order, T[r := r.Value()], repr + {r, r.keys, r.pointers})
  {
    forall n | n in T ensures n.keys in repr && n.pointers in repr { assert T[n] == T[n]; }
  }

  lemma StoredIn(order: nat, T: Graph<Node, Record>, repr: set<object>, n: Node)
    requires Stored(order, T, repr) && n in T
    ensures n in repr && n.keys in repr && n.pointers in repr
  {
    assert StoredAt(n, order, T[n]);
  }

  /** Reading a stored node's scalar fields. */
  lemma StoredKeys(order: nat, T: Graph<Node, Record>, repr: set<object>, n: Node)
    requires Stored(order, T, repr) && n in T
    ensures n.numKeys == |T[n].keys| && n.isLeaf == T[n].leaf
    ensures if n.parent == null then T[n].parent.NullPtr? else T[n].parent.ToNode? && T[n].parent.node == n.parent
    ensures n.Fits() && |T[n].ptrs| == n.PointerCount()
    ensures n.Value() == T[n]
    ensures forall i :: 0 <= i < |T[n].keys| ==> T[n].keys[i] == n.keys[i]
    ensures forall i :: 0 <= i < |T[n].ptrs| ==> T[n].ptrs[i] == n.pointers[i]
  {
    assert StoredAt(n, order, T[n]);
  }

  // ----- Insertion -----

  /** The index of the parent's pointer to left. */
  method GetLeftIndex(parent: Node, left: Node) returns (leftIndex: nat)
    requires parent.Fits() && !parent.isLeaf && ToNode(left) in parent.Value().ptrs
    ensures leftIndex < |parent.Value().ptrs| && parent.Value().ptrs[leftIndex] == ToNode(left)
  {
    leftIndex := 0;
    ghost var i :| 0 <= i < |parent.Value().ptrs| && parent.Value().ptrs[i] == ToNode(left);
    while leftIndex <= parent.numKeys && parent.pointers[leftIndex] != ToNode(left)
      invariant leftIndex <= i
    {
      leftIndex := leftIndex + 1;
    }
  }

  method InsertIntoNewRoot(
    order: nat, left: Node, key: int, right: Node, ghost T: Graph<Node, Record>, ghost repr: set<object>)
    returns (r: Node)
    requires order >= 3 && Stored(order, T, repr) && left in T && right in T && left != right
    modifies left`parent, right`parent
    ensures fresh(r) && fresh(r.keys) && fresh(r.pointers)
    ensures Stored(order, UnderRoot(T, left, key, right, r), repr + {r, r.keys, r.pointers})
  {
    assert StoredAt(left, order, T[left]) && StoredAt(right, order, T[right]);
    r := MakeRoot(order, left, key, right);
    ghost var K := T[left := T[left].(parent := ToNode(r))][right := T[right].(parent := ToNode(r))];
    assert Stored(order, K, repr);
    AddStored(order, K, repr, r);
  }

  method AdoptInto(order: nat, n: Node, ghost T: Graph<Node, Record>, ghost repr: set<object>)
    requires Stored(order, T, repr) && Adoptable(T, n)
    modifies repr
    ensures Stored(order, Adopted(T, n), repr)
  {
    assert StoredAt(n, order, T[n]);
    forall p | p in T[n].ptrs ensures p.node in repr { assert T[p.node] == T[p.node]; }
    AdoptChildren(n);
    ghost var A := Adopted(T, n);
    forall m: Node | m in A ensures m in repr && m.keys in repr && m.pointers in repr && StoredAt(m, order, A[m]) {
      assert m in repr && m.keys in repr && m.pointers in repr && old(StoredAt(m, order, T[m]));
      if ToNode(m) in T[n].ptrs { assert m in NodesIn(T[n].ptrs); }
    }
  }

  /**
   Splits the full inner node oldNode, into which (key, right) still has to go. T is the heap's graph; with
   the pair in place it would be G, which bursts at oldNode.
   */
  method InsertIntoNodeAfterSplitting(
    order: nat, root: Node, oldNode: Node, leftIndex: nat, key: int, right: Node,
    ghost repr: set<object>, ghost T: Graph<Node, Record>, ghost G: Graph<Node, Record>, ghost M: map<int, Record>)
    returns (newRoot: Node, ghost repr': set<object>, ghost T': Graph<Node, Record>)
    requires order >= 3 && Stored(order, T, repr) && oldNode in T && !T[oldNode].leaf && |T[oldNode].keys| == order - 1
    requires leftIndex <= |T[oldNode].keys| && |T[oldNode].ptrs| == order
    requires G == Linked(T, oldNode, leftIndex, key, right) && Bursting(G, root, order, M, oldNode)
    modifies repr
    ensures IsTree(T', newRoot, order, M) && Stored(order, T', repr')
    ensures fresh(repr' - repr)
    decreases Climb(G, root, oldNode), 1
  {
    hide *;
    var newNode, kPrime;
    newNode, kPrime, T' := DivideFullNode(order, oldNode, leftIndex, key, right, repr, T);
    repr' := repr + {newNode, newNode.keys, newNode.pointers};
    DivideStep(T, leftIndex, key, right, G, root, order, M, oldNode, newNode);
    AdoptInto(order, newNode, T', repr');
    T' := Adopted(T', newNode);
    newRoot, repr', T' := InsertIntoParent(order, root, oldNode, kPrime, newNode, repr', T', G, M);
  }

  /** The array work of an inner split. */
  method DivideFullNode(
    order: nat, oldNode: Node, leftIndex: nat, key: int, right: Node,
    ghost repr: set<object>, ghost T: Graph<Node, Record>)
    returns (newNode: Node, kPrime: int, ghost T': Graph<Node, Record>)
    requires order >= 3 && Stored(order, T, repr) && oldNode in T && !T[oldNode].leaf && |T[oldNode].keys| == order - 1
    requires leftIndex <= |T[oldNode].keys| && |T[oldNode].ptrs| == order
    modifies repr
    ensures fresh(newNode) && fresh(newNode.keys) && fresh(newNode.pointers) && newNode !in T
    ensures
      var v, s := LinkedVal(T[oldNode], leftIndex, key, right), MinKeys(order, false);
      Divisible(v, s) && kPrime == v.keys[s] && T' == DividedGraph(T, oldNode, v, s, newNode)
    ensures Stored(order, T', repr + {newNode, newNode.keys, newNode.pointers})
  {
    assert StoredAt(oldNode, order, T[oldNode]);
    newNode, kPrime := SplitNode(oldNode, leftIndex, key, right);
    ghost var K := T[oldNode := oldNode.Value()];
    assert Stored(order, K, repr);
    AddStored(order, K, repr, newNode);
    T' := K[newNode := newNode.Value()];
  }

  /** left has been divided into left and right; links right into the parent, splitting upwards if need be. */
  method InsertIntoParent(
    order: nat, root: Node, left: Node, key: int, right: Node,
    ghost repr: set<object>, ghost T: Graph<Node, Record>, ghost G: Graph<Node, Record>, ghost M: map<int, Record>)
    returns (newRoot: Node, ghost repr': set<object>, ghost T': Graph<Node, Record>)
    requires Pending(G, root, order, M, left, key, right, T) && Stored(order, T, repr)
    modifies repr
    ensures IsTree(T', newRoot, order, M) && Stored(order, T', repr')
    ensures fresh(repr' - repr)
    decreases Climb(G, root, left), 0
  {
    hide *;
    PendingFacts(G, root, order, M, left, key, right, T);
    StoredKeys(order, T, repr, left);
    var parent := left.parent;
    if parent == null {
      StoredIn(order, T, repr, left);
      StoredIn(order, T, repr, right);
      newRoot := InsertIntoNewRoot(order, left, key, right, T, repr);
      repr' := repr + {newRoot, newRoot.keys, newRoot.pointers};
      T' := UnderRoot(T, left, key, right, newRoot);
      PendingRoot(G, root, order, M, key, right, T, newRoot);
      return;
    }
    StoredKeys(order, T, repr, parent);
    var leftIndex := GetLeftIndex(parent, left);
    PendingParent(G, root, order, M, left, key, right, T, parent, leftIndex);
    T' := Linked(T, parent, leftIndex, key, right);
    if parent.numKeys < order - 1 {
      newRoot := root;
      repr' := repr;
      StoredIn(order, T, repr, parent);
      LinkInto(order, parent, leftIndex, key, right, repr, T);
    } else {
      newRoot, repr', T' := InsertIntoNodeAfterSplitting(order, root, parent, leftIndex, key, right, repr, T, T', M);
    }
  }

  method LinkInto(order: nat, parent: Node, leftIndex: nat, key: int, right: Node,
    ghost repr: set<object>, ghost T: Graph<Node, Record>)
    requires Stored(order, T, repr) && parent in T && !T[parent].leaf && |T[parent].keys| < order - 1
    requires leftIndex <= |T[parent].keys| && leftIndex < |T[parent].ptrs|
    modifies parent`numKeys, parent.keys, parent.pointers
    ensures Stored(order, Linked(T, parent, leftIndex, key, right), repr)
  {
    assert StoredAt(parent, order, T[parent]);
    InsertIntoNode(parent, leftIndex, key, right);
  }

  // ----- Searching -----

  /** The index of the child to follow: past every separator that is not above the key. */
  method ChildIndex(c: Node, key: int) returns (i: nat)
    requires c.Fits()
    ensures i <= c.numKeys && (i > 0 ==> c.Value().keys[i - 1] <= key) && (i < c.numKeys ==> key < c.Value().keys[i])
  {
    i := 0;
    while i < c.numKeys
      invariant i <= c.numKeys && (i > 0 ==> c.keys[i - 1] <= key)
    {
      if key >= c.keys[i] { i := i + 1; } else { break; }
    }
  }

  method FindLeaf(order: nat, root: Node?, key: Key, ghost T: Graph<Node, Record>, ghost repr: set<object>)
    returns (c: Node?)
    requires root != null ==> Stored(order, T, repr) && Shape(T, root)
    ensures if root == null then c == null else c in T && T[c].leaf && T[c].lo <= key < T[c].hi
  {
    c := root;
    if c == null { return; }
    RootCovers(T, root, key);
    while !c.isLeaf
      invariant c in T && T[c].lo <= key < T[c].hi
      decreases T[c].level
    {
      assert StoredAt(c, order, T[c]);
      var i := ChildIndex(c, key);
      DescendStep(T, root, c, i, key);
      assert c.pointers[i] == T[c].ptrs[i];
      c := c.pointers[i].node;
      assert StoredAt(c, order, T[c]);
    }
    assert StoredAt(c, order, T[c]);
  }

  method Find(
    order: nat, root: Node?, key: Key, ghost T: Graph<Node, Record>, ghost repr: set<object>, ghost M: map<int, Record>)
    returns (r: Record?)
    requires if root == null then M == map[] else Stored(order, T, repr) && Shape(T, root) && Holds(T, M)
    ensures r == if key in M then M[key] else null
  {
    hide *;
    var c := FindLeaf(order, root, key, T, repr);
    if c == null { return null; }
    LeafDecides(T, root, M, c, key);
    StoredKeys(order, T, repr, c);
    r := FindInLeaf(c, key, M);
  }

  /** The loop over the keys of a leaf. */
  method FindInLeaf(c: Node, key: int, ghost M: map<int, Record>) returns (r: Record?)
    requires c.Fits() && c.isLeaf && Agrees(c.Value(), M) && (key in M <==> key in c.Value().keys)
    ensures r == if key in M then M[key] else null
  {
    ghost var v := c.Value();
    var i := 0;
    while i < c.numKeys
      invariant i <= c.numKeys && forall j :: 0 <= j < i ==> v.keys[j] != key
    {
      if c.keys[i] == key {
        assert v.keys[i] == key && v.ptrs[i] == c.pointers[i];
        return c.pointers[i].rec;
      }
      i := i + 1;
    }
    r := null;
  }

  // ----- The top of insertion -----

  method InsertIntoLeafAfterSplitting(
    order: nat, root: Node, leaf: Node, key: int, pointer: Record,
    ghost repr: set<object>, ghost T: Graph<Node, Record>, ghost M: map<int, Record>)
    returns (newRoot: Node, ghost repr': set<object>, ghost T': Graph<Node, Record>)
    requires order >= 3 && Stored(order, T, repr) && IsTree(T, root, order, M)
    requires leaf in T && T[leaf].leaf && T[leaf].lo <= key < T[leaf].hi && key !in M && |T[leaf].keys| == order - 1
    requires Agrees(T[leaf], M) && Sorted(T[leaf].keys)
    modifies repr
    ensures IsTree(T', newRoot, order, M[key := pointer]) && Stored(order, T', repr')
    ensures fresh(repr' - repr)
  {
    hide *;
    var newLeaf, newKey;
    ghost var i;
    assert key !in T[leaf].keys && |T[leaf].ptrs| == order - 1 by { AgreesFacts(T[leaf], M, key); }
    newLeaf, newKey, i, T' := DivideFullLeaf(order, leaf, key, pointer, repr, T);
    repr' := repr + {newLeaf, newLeaf.keys, newLeaf.pointers};
    LeafDivideStep(T, root, order, M, leaf, i, key, pointer, newLeaf);
    ghost var G := T[leaf := InsertVal(T[leaf], i, key, pointer)];
    newRoot, repr', T' := InsertIntoParent(order, root, leaf, newKey, newLeaf, repr', T', G, M[key := pointer]);
  }

  /** The array work of a leaf split. */
  method DivideFullLeaf(
    order: nat, leaf: Node, key: int, pointer: Record, ghost repr: set<object>, ghost T: Graph<Node, Record>)
    returns (newLeaf: Node, newKey: int, ghost i: nat, ghost T': Graph<Node, Record>)
    requires order >= 3 && Stored(order, T, repr) && leaf in T && T[leaf].leaf
    requires |T[leaf].keys| == |T[leaf].ptrs| == order - 1 && Sorted(T[leaf].keys) && key !in T[leaf].keys
    modifies repr
    ensures fresh(newLeaf) && fresh(newLeaf.keys) && fresh(newLeaf.pointers) && newLeaf !in T
    ensures Slot(T[leaf].keys, i, key)
    ensures
      var v, s := InsertVal(T[leaf], i, key, pointer), MinKeys(order, true);
      Divisible(v, s) && newKey == v.keys[s] && T' == DividedGraph(T, leaf, v, s, newLeaf)
    ensures Stored(order, T', repr + {newLeaf, newLeaf.keys, newLeaf.pointers})
  {
    hide Slot, Sorted, LeftHalf, RightHalf, InsertVal;
    assert StoredAt(leaf, order, T[leaf]);
    newLeaf, i := SplitLeaf(leaf, key, pointer);
    newKey := newLeaf.keys[0];
    ghost var K := T[leaf := leaf.Value()];
    assert Stored(order, K, repr);
    AddStored(order, K, repr, newLeaf);
    T' := K[newLeaf := newLeaf.Value()];
  }

  method StartNewTree(order: nat, key: int, pointer: Record) returns (root: Node)
    requires order >= 3
    ensures fresh(root) && fresh(root.keys) && fresh(root.pointers)
    ensures root.keys.Length == order - 1 && root.pointers.Length == order && root.Fits()
    ensures root.Value() == Val(true, [key], [ToRecord(pointer)], NullPtr, NullPtr, 0, MIN_KEY, KEY_LIMIT)
  {
    root := new Node(order, true);
    root.level, root.lo, root.hi := 0, MIN_KEY, KEY_LIMIT;
    root.numKeys := 1;
    root.keys[0] := key;
    root.pointers[0] := ToRecord(pointer);
    root.pointers[order - 1] := NullPtr;
  }

  method LeafInsert(
    order: nat, leaf: Node, key: int, pointer: Record, ghost repr: set<object>, ghost T: Graph<Node, Record>)
    returns (ghost i: nat)
    requires Stored(order, T, repr) && leaf in T && T[leaf].leaf && |T[leaf].keys| == |T[leaf].ptrs| < order - 1
    requires Sorted(T[leaf].keys) && key !in T[leaf].keys
    modifies repr
    ensures Slot(T[leaf].keys, i, key) && Stored(order, T[leaf := InsertVal(T[leaf], i, key, pointer)], repr)
  {
    assert StoredAt(leaf, order, T[leaf]);
    i := InsertIntoLeaf(leaf, key, pointer);
  }

  lemma AgreesFacts(v: Val<Node, Record>, M: map<int, Record>, k: int)
    requires Agrees(v, M) && k !in M
    ensures k !in v.keys && |v.ptrs| == |v.keys|
  {}

  // ----- Deletion -----

  /** The index of the neighbour to the left of n, or -1 if n is the leftmost child. */
  method GetNeighborIndex(parent: Node, n: Node) returns (index: int)
    requires parent.Fits() && !parent.isLeaf && ToNode(n) in parent.Value().ptrs
    ensures -1 <= index && index + 1 < |parent.Value().ptrs| && parent.Value().ptrs[index + 1] == ToNode(n)
  {
    ghost var at :| 0 <= at < |parent.Value().ptrs| && parent.Value().ptrs[at] == ToNode(n);
    var i := 0;
    while parent.pointers[i] != ToNode(n)
      invariant 0 <= i <= at
      decreases at - i
    {
      i := i + 1;
    }
    index := i - 1;
  }

  method RemoveIn(
    order: nat, n: Node, key: int, pointer: Pointer,
    ghost i: nat, ghost repr: set<object>, ghost T: Graph<Node, Record>)
    requires Stored(order, T, repr) && RemovalDue(T, n, i, key, pointer)
    modifies repr
    ensures Stored(order, T[n := RemoveVal(T[n], i)], repr)
  {
    assert StoredAt(n, order, T[n]);
    assert forall j :: 0 <= j < |T[n].keys| ==> n.keys[j] == T[n].keys[j];
    assert forall j :: 0 <= j < |T[n].ptrs| ==> n.pointers[j] == T[n].ptrs[j];
    RemoveEntryFromNode(n, key, pointer, i);
  }

  ghost predicate Outcome(
    order: nat, root: Node?, T: Graph<Node, Record>, repr: set<object>, M: map<int, Record>)
    reads repr
  {
    if root == null then M == map[] else Stored(order, T, repr) && IsTree(T, root, order, M)
  }

  /** After a deletion from the root: an empty leaf leaves nothing, an empty inner node gives way to its child. */
  method AdjustRoot(
    order: nat, root: Node, ghost repr: set<object>, ghost G: Graph<Node, Record>, ghost M: map<int, Record>)
    returns (newRoot: Node?, ghost T': Graph<Node, Record>)
    requires Stored(order, G, repr) && Starving(G, root, order, M, root)
    modifies repr
    ensures Outcome(order, newRoot, T', repr, M) && T'.Keys <= G.Keys
    ensures root in G && (|G[root].keys| > 0 ==> newRoot == root && T' == G)
  {
    hide *;
    StarvingParts(G, root, order, M);
    StoredKeys(order, G, repr, root);
    T' := G;
    if root.numKeys > 0 {
      SatisfiedStep(G, root, order, M, root);
      OutcomeWhole(order, root, G, repr, M);
      return root, G;
    }
    if !root.isLeaf {
      CollapseStep(G, root, order, M);
      newRoot := root.pointers[0].node;
      StoredIn(order, G, repr, newRoot);
      ClearParent(order, newRoot, repr, G);
      T' := Collapse(G, root);
      CollapseKeys(G, root);
      CollapseStored(order, G, repr, root);
      OutcomeWhole(order, newRoot, T', repr, M);
    } else {
      EmptyStep(G, root, order, M);
      newRoot := null;
      OutcomeNone(order, T', repr, M);
    }
  }

  /** The array work of a merge: a takes over b's entries and children. */
  method AbsorbLeaf(order: nat, a: Node, b: Node, kPrime: int, ghost repr: set<object>, ghost G: Graph<Node, Record>)
    requires Stored(order, G, repr) && a in G && b in G && a != b
    requires G[a].leaf && G[b].leaf && |G[a].keys| + |G[b].keys| <= order - 1
    modifies repr
    ensures Stored(order, Absorbed(G, a, b, kPrime), repr)
  {
    assert StoredAt(a, order, G[a]) && StoredAt(b, order, G[b]);
    AppendLeaf(a, b);
  }

  method AbsorbNode(order: nat, a: Node, b: Node, kPrime: int, ghost repr: set<object>, ghost G: Graph<Node, Record>)
    requires Stored(order, G, repr) && a in G && b in G && a != b
    requires !G[a].leaf && !G[b].leaf && |G[a].keys| + |G[b].keys| <= order - 2
    requires Adoptable(G[a := Merged(G[a], G[b], kPrime)] - {b}, a)
    modifies repr
    ensures Stored(order, Absorbed(G, a, b, kPrime), repr)
  {
    hide Adoptable;
    assert StoredAt(a, order, G[a]) && StoredAt(b, order, G[b]);
    AppendNode(a, b, kPrime);
    ghost var K := G[a := Merged(G[a], G[b], kPrime)] - {b};
    assert Stored(order, K, repr);
    AdoptInto(order, a, K, repr);
  }

  method SetSeparator(order: nat, p: Node, i: nat, key: int, ghost repr: set<object>, ghost G: Graph<Node, Record>)
    requires Stored(order, G, repr) && p in G && i < |G[p].keys|
    modifies p.keys
    ensures Stored(order, G[p := G[p].(keys := G[p].keys[i := key])], repr)
  {
    assert StoredAt(p, order, G[p]);
    p.keys[i] := key;
    assert p.keys[..p.numKeys] == G[p].keys[i := key];
  }

  method ClearParent(order: nat, c: Node, ghost repr: set<object>, ghost G: Graph<Node, Record>)
    requires Stored(order, G, repr) && c in G
    modifies c`parent
    ensures Stored(order, G[c := G[c].(parent := NullPtr)], repr)
  {
    assert StoredAt(c, order, G[c]);
    c.parent := null;
  }

  lemma CollapseKeys(G: Graph<Node, Record>, root: Node)
    requires root in G && |G[root].ptrs| == 1 && G[root].ptrs[0].ToNode? && G[root].ptrs[0].node in G
    ensures Collapse(G, root).Keys <= G.Keys
  {}

  lemma CollapseStored(order: nat, G: Graph<Node, Record>, repr: set<object>, root: Node)
    requires root in G && |G[root].ptrs| == 1 && G[root].ptrs[0].ToNode? && G[root].ptrs[0].node in G
    requires var c := G[root].ptrs[0].node; c != root && Stored(order, G[c := G[c].(parent := NullPtr)], repr)
    ensures Stored(order, Collapse(G, root), repr)
  {
    var K := G[G[root].ptrs[0].node := G[G[root].ptrs[0].node].(parent := NullPtr)];
    assert Collapse(G, root) == K - {root};
    forall n | n in Collapse(G, root) ensures n in K && Collapse(G, root)[n] == K[n] {}
    hide Collapse, StoredAt;
    assert forall n {:trigger K[n]} :: n in K ==> n in repr && StoredAt(n, order, K[n]);
  }

  lemma OutcomeNone(order: nat, T: Graph<Node, Record>, repr: set<object>, M: map<int, Record>)
    requires M == map[]
    ensures Outcome(order, null, T, repr, M)
  {}

  lemma StarvingParts(G: Graph<Node, Record>, root: Node, order: nat, M: map<int, Record>)
    requires Starving(G, root, order, M, root)
    ensures root in G && (|G[root].keys| == 0 && !G[root].leaf ==> |G[root].ptrs| == 1 && G[root].ptrs[0].ToNode?)
  {
    if |G[root].keys| == 0 && !G[root].leaf { CollapseStep(G, root, order, M); }
  }

  method SetParent(order: nat, c: Node, n: Node, ghost repr: set<object>, ghost G: Graph<Node, Record>)
    requires Stored(order, G, repr) && c in G
    modifies c`parent
    ensures Stored(order, G[c := G[c].(parent := ToNode(n))], repr)
  {
    assert StoredAt(c, order, G[c]);
    c.parent := n;
  }

  method MoveIn(
    order: nat, toRight: bool, a: Node, b: Node, kPrime: int, ghost repr: set<object>, ghost G: Graph<Node, Record>)
    requires Stored(order, G, repr) && a in G && b in G && a != b && CanMove(order, toRight, G[a], G[b])
    modifies repr
    ensures
      var ab := Moved(toRight, G[a], G[b], kPrime);
      Stored(order, G[a := ab.0][b := ab.1], repr)
  {
    hide Moved;
    assert StoredAt(a, order, G[a]) && StoredAt(b, order, G[b]);
    MovePair(order, toRight, a, b, kPrime);
  }

  method MovePair(order: nat, toRight: bool, left: Node, right: Node, kPrime: int)
    requires Apart(left, right) && left.keys.Length == order - 1 && CanMove(order, toRight, left.Value(), right.Value())
    modifies left`numKeys, left`hi, left.keys, left.pointers, left`lo, right`numKeys, right`hi, right`lo, right.keys,
      right.pointers
    ensures left.Fits() && right.Fits()
    ensures
      var ab := Moved(toRight, old(left.Value()), old(right.Value()), kPrime);
      left.Value() == ab.0 && right.Value() == ab.1
  {
    hide LeafToRight, NodeToRight, LeafToLeft, NodeToLeft;
    if toRight {
      if left.isLeaf { ShiftLeafRight(left, right); } else { ShiftNodeRight(left, right, kPrime); }
    } else {
      if left.isLeaf { ShiftLeafLeft(left, right); } else { ShiftNodeLeft(left, right, kPrime); }
    }
  }

  /** The entry moves and the separator follows. */
  method Borrow(
    order: nat, toRight: bool, p: Node, i: nat, a: Node, b: Node, kPrime: int,
    ghost repr: set<object>, ghost G: Graph<Node, Record>)
    requires Stored(order, G, repr) && p in G && a in G && b in G && a != b && p != a && p != b
    requires i < |G[p].keys| && CanMove(order, toRight, G[a], G[b])
    modifies repr
    ensures Stored(order, Shifted(G, p, i, a, b, Moved(toRight, G[a], G[b], kPrime)), repr)
  {
    StoredIn(order, G, repr, p);
    hide *;
    CanMoveParts(order, toRight, G[a], G[b]);
    var sep := NewSeparator(order, toRight, a, b, kPrime, repr, G);
    SetSeparator(order, p, i, sep, repr, G);
    ghost var G1 := G[p := G[p].(keys := G[p].keys[i := sep])];
    assert G1[a] == G[a] && G1[b] == G[b];
    MoveIn(order, toRight, a, b, kPrime, repr, G1);
    ghost var ab := Moved(toRight, G[a], G[b], kPrime);
    ShiftedIs(G, p, i, a, b, ab);
  }

  /** The key that will separate the two nodes: the lower bound of the right one. */
  method NewSeparator(
    order: nat, toRight: bool, a: Node, b: Node,
    ghost kPrime: int, ghost repr: set<object>, ghost G: Graph<Node, Record>)
    returns (sep: int)
    requires Stored(order, G, repr) && a in G && b in G && CanMove(order, toRight, G[a], G[b])
    ensures sep == Moved(toRight, G[a], G[b], kPrime).1.lo
  {
    hide LeafToRight, NodeToRight, LeafToLeft, NodeToLeft;
    assert StoredAt(a, order, G[a]) && StoredAt(b, order, G[b]);
    if toRight {
      sep := a.keys[a.numKeys - 1];
    } else {
      sep := if a.isLeaf then b.keys[1] else b.keys[0];
    }
  }

  /** Merges the starving node n with its neighbour and removes the right one's entry from the parent. */
  method CoalesceNodes(
    order: nat, root: Node, n: Node, neighbor: Node, neighborIndex: int, kPrime: int, ghost i: nat,
    ghost repr: set<object>, ghost G: Graph<Node, Record>, ghost M: map<int, Record>)
    returns (newRoot: Node?, ghost T': Graph<Node, Record>)
    requires Stored(order, G, repr) && Starving(G, root, order, M, n) && n != root
    requires G[n].parent.ToNode? && neighborIndex >= -1
    requires
      var p := G[n].parent.node;
      var a, b := if neighborIndex == -1 then n else neighbor, if neighborIndex == -1 then neighbor else n;
      && Pair(G, root, n, p, neighborIndex + 1, i, a, b) && kPrime == G[p].keys[i]
      && |G[a].keys| + |G[b].keys| < (if G[a].leaf then order else order - 1)
    modifies repr
    ensures Outcome(order, newRoot, T', repr, M) && T'.Keys <= G.Keys - {if neighborIndex == -1 then neighbor else n}
    decreases Climb(G, root, n), 0
  {
    var left, right := neighbor, n;
    if neighborIndex == -1 { left, right := n, neighbor; }
    ghost var p := G[n].parent.node;
    PairFacts(G, root, order, M, n, p, neighborIndex + 1, i, left, right);
    MergeStep(G, root, order, M, n, p, i, left, right);
    hide *;
    StoredKeys(order, G, repr, right);
    var parent := right.parent;
    if !right.isLeaf {
      AbsorbNode(order, left, right, kPrime, repr, G);
    } else {
      AbsorbLeaf(order, left, right, kPrime, repr, G);
    }
    T' := Absorbed(G, left, right, kPrime);
    AbsorbedKeys(G, left, right, kPrime);
    newRoot, T' := DeleteEntry(
      order, root, parent, kPrime, ToNode(right), i, repr, T', T'[parent := RemoveVal(T'[parent], i)], M);
  }

  lemma AbsorbedKeys(G: Graph<Node, Record>, a: Node, b: Node, k: int)
    requires a in G && b in G && a != b
    ensures Absorbed(G, a, b, k).Keys == G.Keys - {b}
  {}

  /** Moves one entry between the starving node n and its neighbour; the separator in the parent follows. */
  method RedistributeNodes(
    order: nat, root: Node, n: Node, neighbor: Node, neighborIndex: int, kPrimeIndex: nat, kPrime: int,
    ghost repr: set<object>, ghost G: Graph<Node, Record>, ghost M: map<int, Record>)
    returns (ghost T': Graph<Node, Record>)
    requires Stored(order, G, repr) && Starving(G, root, order, M, n) && n != root
    requires G[n].parent.ToNode? && neighborIndex >= -1 && |G[n].keys| < MinKeys(order, G[n].leaf)
    requires
      var p := G[n].parent.node;
      var a, b := if neighborIndex == -1 then n else neighbor, if neighborIndex == -1 then neighbor else n;
      && Pair(G, root, n, p, neighborIndex + 1, kPrimeIndex, a, b) && kPrime == G[p].keys[kPrimeIndex]
      && |G[a].keys| + |G[b].keys| >= (if G[n].leaf then order else order - 1)
    modifies repr
    ensures Stored(order, T', repr) && IsTree(T', root, order, M) && OneBorrowed(G, n, neighbor, T')
  {
    var left, right, fromLeft := neighbor, n, neighborIndex != -1;
    if !fromLeft { left, right := n, neighbor; }
    ghost var p := G[n].parent.node;
    PairFacts(G, root, order, M, n, p, neighborIndex + 1, kPrimeIndex, left, right);
    BorrowStep(G, root, order, M, n, p, neighborIndex + 1, kPrimeIndex, left, right);
    hide *;
    StoredKeys(order, G, repr, n);
    StoredKeys(order, G, repr, left);
    StoredKeys(order, G, repr, right);
    var parent, isLeaf := n.parent, n.isLeaf;
    T' := Shifted(G, p, kPrimeIndex, left, right, Moved(fromLeft, G[left], G[right], kPrime));
    CanMoveParts(order, fromLeft, G[left], G[right]);
    Borrowed(G, order, p, kPrimeIndex, left, right, fromLeft, kPrime, T');
    if isLeaf {
      Borrow(order, fromLeft, parent, kPrimeIndex, left, right, kPrime, repr, G);
    } else {
      var tmp := (if fromLeft then left.pointers[left.numKeys] else right.pointers[0]).node;
      Borrow(order, fromLeft, parent, kPrimeIndex, left, right, kPrime, repr, G);
      SetParent(order, tmp, n, repr, T');
      Reparented(G, n, neighbor, T', tmp);
      T' := T'[tmp := T'[tmp].(parent := ToNode(n))];
    }
  }

  /** Removes an entry from n, and restores the tree upwards if that leaves n short. */
  method DeleteEntry(
    order: nat, root: Node, n: Node, key: int, pointer: Pointer, ghost i: nat,
    ghost repr: set<object>, ghost T: Graph<Node, Record>, ghost G: Graph<Node, Record>, ghost M: map<int, Record>)
    returns (newRoot: Node?, ghost T': Graph<Node, Record>)
    requires Stored(order, T, repr) && RemovalDue(T, n, i, key, pointer) && G == T[n := RemoveVal(T[n], i)]
    requires Starving(G, root, order, M, n)
    modifies repr
    ensures Outcome(order, newRoot, T', repr, M) && T'.Keys <= G.Keys
    ensures n in G && (n != root && |G[n].keys| >= MinKeys(order, G[n].leaf) ==> newRoot == root && T' == G)
    decreases Climb(G, root, n), 2
  {
    hide *;
    RemoveIn(order, n, key, pointer, i, repr, T);
    StarvingIn(G, root, order, M, n);
    if n == root {
      newRoot, T' := AdjustRoot(order, root, repr, G, M);
      return;
    }
    var minKeys := MinKeys(order, n.isLeaf);
    StoredKeys(order, G, repr, n);
    if n.numKeys >= minKeys {
      SatisfiedStep(G, root, order, M, n);
      OutcomeWhole(order, root, G, repr, M);
      return root, G;
    }
    StarvingFacts(G, root, order, M, n);
    ghost var neighbor;
    newRoot, neighbor, T' := Refill(order, root, n, repr, G, M);
  }

  /** n is short: merge it with a neighbour if both fit into one node, otherwise borrow an entry. */
  method Refill(
    order: nat, root: Node, n: Node,
    ghost repr: set<object>, ghost G: Graph<Node, Record>, ghost M: map<int, Record>)
    returns (newRoot: Node?, ghost beside: Node, ghost T': Graph<Node, Record>)
    requires Stored(order, G, repr) && Starving(G, root, order, M, n) && n != root
    requires |G[n].keys| < MinKeys(order, G[n].leaf)
    modifies repr
    ensures Outcome(order, newRoot, T', repr, M) && T'.Keys <= G.Keys && Beside(G, n, beside)
    ensures
      if |G[n].keys| + |G[beside].keys| < (if G[n].leaf then order else order - 1) then T'.Keys < G.Keys
      else newRoot == root && OneBorrowed(G, n, beside, T')
    decreases Climb(G, root, n), 1
  {
    hide *;
    StarvingIn(G, root, order, M, n);
    StarvingFacts(G, root, order, M, n);
    ghost var p := G[n].parent.node;
    StoredKeys(order, G, repr, n);
    StoredKeys(order, G, repr, p);
    var parent := n.parent;
    var neighborIndex := GetNeighborIndex(parent, n);
    PairOf(G, root, order, M, n, p, neighborIndex + 1);
    var kPrimeIndex := if neighborIndex == -1 then 0 else neighborIndex;
    var kPrime := parent.keys[kPrimeIndex];
    var neighbor := (if neighborIndex == -1 then parent.pointers[1] else parent.pointers[neighborIndex]).node;
    StoredKeys(order, G, repr, neighbor);
    beside := neighbor;
    PairIsBeside(G, root, order, M, n, p, neighborIndex, neighbor);
    var capacity := if n.isLeaf then order else order - 1;
    if neighbor.numKeys + n.numKeys < capacity {
      newRoot, T' := CoalesceNodes(order, root, n, neighbor, neighborIndex, kPrime, kPrimeIndex, repr, G, M);
      assert n in G.Keys && neighbor in G.Keys;
    } else {
      T' := RedistributeNodes(order, root, n, neighbor, neighborIndex, kPrimeIndex, kPrime, repr, G, M);
      newRoot := root;
      BorrowedKeys(G, n, neighbor, T');
      OutcomeWhole(order, root, T', repr, M);
    }
  }

  lemma StarvingIn(G: Graph<Node, Record>, root: Node, order: nat, M: map<int, Record>, n: Node)
    requires Starving(G, root, order, M, n)
    ensures n in G && order >= 3
  {}

  /** One entry has moved from x to n, and the nodes are the same. */
  ghost predicate OneBorrowed(G: Graph<Node, Record>, n: Node, x: Node, T: Graph<Node, Record>) {
    && T.Keys == G.Keys && n in G && x in G
    && |T[n].keys| == |G[n].keys| + 1 && |T[x].keys| == |G[x].keys| - 1
  }

  lemma PairIsBeside(
    G: Graph<Node, Record>, root: Node, order: nat, M: map<int, Record>, n: Node, p: Node, neighborIndex: int, x: Node)
    requires Starving(G, root, order, M, n) && n != root && p in G && G[n].parent == ToNode(p) && neighborIndex >= -1
    requires neighborIndex + 1 < |G[p].ptrs| && G[p].ptrs[neighborIndex + 1] == ToNode(n)
    requires var i := if neighborIndex == -1 then 1 else neighborIndex;
      i < |G[p].ptrs| && G[p].ptrs[i] == ToNode(x)
    ensures Beside(G, n, x) && x != n
  {
    PairOf(G, root, order, M, n, p, neighborIndex + 1);
    var i := if neighborIndex == -1 then 0 else neighborIndex;
    var a, b := G[p].ptrs[i].node, G[p].ptrs[i + 1].node;
    PairFacts(G, root, order, M, n, p, neighborIndex + 1, i, a, b);
    PairBeside(G, root, order, M, n, p, neighborIndex + 1, i, a, b);
  }

  lemma BorrowedKeys(G: Graph<Node, Record>, n: Node, x: Node, T: Graph<Node, Record>)
    requires OneBorrowed(G, n, x, T)
    ensures T.Keys == G.Keys
  {}

  lemma Borrowed(
    G: Graph<Node, Record>, order: nat, p: Node, i: nat, a: Node, b: Node, toRight: bool, k: int,
    T: Graph<Node, Record>)
    requires p in G && i < |G[p].keys| && a in G && b in G && a != b && p != a && p != b
    requires CanMove(order, toRight, G[a], G[b])
    requires G[a].leaf == G[b].leaf && |G[a].ptrs| == |G[a].keys| + (if G[a].leaf then 0 else 1)
      && |G[b].ptrs| == |G[b].keys| + (if G[b].leaf then 0 else 1)
      && if toRight then |G[a].keys| >= 1 else |G[b].keys| >= (if G[a].leaf then 2 else 1)
    requires T == Shifted(G, p, i, a, b, Moved(toRight, G[a], G[b], k))
    ensures OneBorrowed(G, if toRight then b else a, if toRight then a else b, T)
  {
    ShiftedParts(G, p, i, a, b, Moved(toRight, G[a], G[b], k));
    MovedSizes(toRight, G[a], G[b], k);
  }

  lemma Reparented(G: Graph<Node, Record>, n: Node, x: Node, T: Graph<Node, Record>, c: Node)
    requires OneBorrowed(G, n, x, T) && c in T
    ensures OneBorrowed(G, n, x, T[c := T[c].(parent := ToNode(n))])
  {}

  /** Deletes a key from a non-empty tree, if it is there. */
  method DeleteKey(
    order: nat, root: Node, key: Key, ghost repr: set<object>, ghost T: Graph<Node, Record>, ghost M: map<int, Record>)
    returns (newRoot: Node?, ghost T': Graph<Node, Record>)
    requires Stored(order, T, repr) && IsTree(T, root, order, M) && Injective(M)
    modifies repr
    ensures Outcome(order, newRoot, T', repr, M - {key})
  {
    var keyRecord := Find(order, root, key, T, repr, M);
    var keyLeaf := FindLeaf(order, root, key, T, repr);
    if keyRecord != null && keyLeaf != null {
      ghost var i := DeletionStart(T, root, order, M, keyLeaf, key);
      hide *;
      newRoot, T' := DeleteEntry(
        order, root, keyLeaf, key, ToRecord(keyRecord), i, repr, T, T[keyLeaf := RemoveVal(T[keyLeaf], i)], M - {key});
    } else {
      newRoot, T' := root, T;
      assert M - {key} == M;
    }
  }

  lemma OutcomeParts(order: nat, root: Node?, T: Graph<Node, Record>, repr: set<object>, M: map<int, Record>)
    requires Outcome(order, root, T, repr, M)
    ensures if root == null then M == map[]
      else Stored(order, T, repr) && IsTree(T, root, order, M) && Shape(T, root) && Holds(T, M)
  {}

  lemma OutcomeWhole(order: nat, root: Node, T: Graph<Node, Record>, repr: set<object>, M: map<int, Record>)
    requires Stored(order, T, repr) && IsTree(T, root, order, M)
    ensures Outcome(order, root, T, repr, M)
  {}

  /** An absent key: the first insertion makes a tree, later ones change it. */
  method AddEntry(
    order: nat, root: Node?, key: Key, pointer: Record,
    ghost repr: set<object>, ghost T: Graph<Node, Record>, ghost M: map<int, Record>)
    returns (newRoot: Node, ghost repr': set<object>, ghost T': Graph<Node, Record>)
    requires order >= 3 && Outcome(order, root, T, repr, M) && key !in M
    modifies repr
    ensures Outcome(order, newRoot, T', repr', M[key := pointer]) && fresh(repr' - repr)
  {
    hide *;
    OutcomeParts(order, root, T, repr, M);
    if root == null {
      newRoot, repr', T' := StartTree(order, key, pointer, repr);
      assert M[key := pointer] == map[key := pointer];
    } else {
      newRoot, repr', T' := InsertNew(order, root, key, pointer, repr, T, M);
    }
    OutcomeWhole(order, newRoot, T', repr', M[key := pointer]);
  }

  /** The first insertion. */
  method StartTree(order: nat, key: Key, pointer: Record, ghost repr: set<object>)
    returns (root: Node, ghost repr': set<object>, ghost T: Graph<Node, Record>)
    requires order >= 3
    ensures Stored(order, T, repr') && IsTree(T, root, order, map[key := pointer]) && fresh(repr' - repr)
  {
    root := StartNewTree(order, key, pointer);
    SingleLeaf(root, order, key, pointer);
    T, repr' := map[root := root.Value()], repr + {root, root.keys, root.pointers};
  }

  /** The key is not in the tree: it goes into the leaf that covers it. */
  method InsertNew(
    order: nat, root: Node, key: Key, pointer: Record,
    ghost repr: set<object>, ghost T: Graph<Node, Record>, ghost M: map<int, Record>)
    returns (newRoot: Node, ghost repr': set<object>, ghost T': Graph<Node, Record>)
    requires Stored(order, T, repr) && IsTree(T, root, order, M) && key !in M
    modifies repr
    ensures IsTree(T', newRoot, order, M[key := pointer]) && Stored(order, T', repr')
    ensures fresh(repr' - repr)
  {
    var leaf := FindLeaf(order, root, key, T, repr);
    LeafFacts(T, root, order, M, leaf, key);
    hide *;
    assert leaf.numKeys == |T[leaf].keys| by { StoredKeys(order, T, repr, leaf); }
    if leaf.numKeys < order - 1 {
      ghost var i := LeafInsert(order, leaf, key, pointer, repr, T);
      InsertStep(T, root, order, M, leaf, i, key, pointer);
      newRoot, repr', T' := root, repr, T[leaf := InsertVal(T[leaf], i, key, pointer)];
    } else {
      newRoot, repr', T' := InsertIntoLeafAfterSplitting(order, root, leaf, key, pointer, repr, T, M);
    }
  }

  lemma LeafFacts(T: Graph<Node, Record>, root: Node, order: nat, M: map<int, Record>, n: Node, k: int)
    requires IsTree(T, root, order, M) && n in T && T[n].leaf && k !in M
    ensures order >= 3 && Sorted(T[n].keys) && Agrees(T[n], M) && k !in T[n].keys
    ensures |T[n].ptrs| == |T[n].keys| <= order - 1
  {
    LeafContents(T, root, M, n);
    assert Filled(T, root, order, n);
  }
}
