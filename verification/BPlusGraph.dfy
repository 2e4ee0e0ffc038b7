/**
 The value of a B+ tree as a finite graph of nodes, and what each structural step of the tree
 algorithms does to it. Nothing here reads the heap: `Graph` maps a node's identity to the part of the
 node that matters. The identity type `N` and the record type `R` are parameters, so that the in-memory
 tree (nodes are objects) and the on-disk tree (nodes are page numbers) share one theory.
 */
module BPlusGraph {

  // Keys are C `int`s. Every node owns the half-open key interval lo <= k < hi.
  const MIN_KEY: int := -0x8000_0000
  const KEY_LIMIT: int := 0x8000_0000

  /** What a `void *` slot of a node can hold. */
  datatype Ptr<N, R> = NullPtr | ToNode(node: N) | ToRecord(rec: R)

  /** A node's value. `level` is the distance to the leaves; `lo` and `hi` bound the keys below it. */
  datatype Val<N, R> = Val(
    leaf: bool, keys: seq<int>, ptrs: seq<Ptr<N, R>>, next: Ptr<N, R>, parent: Ptr<N, R>,
    level: nat, lo: int, hi: int)

  type Graph<N, R> = map<N, Val<N, R>>

  // ----- Sequences -----

  function Ins<T>(s: seq<T>, i: nat, x: T): seq<T>
    requires i <= |s|
  {
    s[..i] + [x] + s[i..]
  }

  ghost predicate Sorted(s: seq<int>) {
    forall i, j :: 0 <= i < j < |s| ==> s[i] < s[j]
  }

  // ----- The invariant, node by node -----

  /** The interval of the i-th child of a node: it runs between the neighbouring separators. */
  ghost function Low<N, R>(v: Val<N, R>, i: nat): int
    requires i <= |v.keys|
  {
    if i == 0 then v.lo else v.keys[i - 1]
  }

  ghost function High<N, R>(v: Val<N, R>, i: nat): int
    requires i <= |v.keys|
  {
    if i == |v.keys| then v.hi else v.keys[i]
  }

  ghost predicate KeysOk<N, R>(v: Val<N, R>) {
    && MIN_KEY <= v.lo < v.hi <= KEY_LIMIT
    && Sorted(v.keys)
    && (forall i :: 0 <= i < |v.keys| ==> v.lo <= v.keys[i] < v.hi)
    && (!v.leaf ==> forall i :: 0 <= i < |v.keys| ==> v.lo < v.keys[i])
  }

  /** The i-th child names its parent, is one level down and owns exactly its share of the interval. */
  ghost predicate ChildOk<N, R>(G: Graph<N, R>, n: N, v: Val<N, R>, i: nat)
    requires i <= |v.keys| && i < |v.ptrs|
  {
    && v.ptrs[i].ToNode?
    && v.ptrs[i].node in G
    && G[v.ptrs[i].node].parent == ToNode(n)
    && G[v.ptrs[i].node].level + 1 == v.level
    && G[v.ptrs[i].node].lo == Low(v, i)
    && G[v.ptrs[i].node].hi == High(v, i)
  }

  /** A leaf's `next` is the leaf whose interval starts where this one ends. */
  ghost predicate NextOk<N, R>(G: Graph<N, R>, v: Val<N, R>) {
    match v.next
    case NullPtr => v.hi == KEY_LIMIT
    case ToNode(m) => m in G && G[m].leaf && G[m].lo == v.hi
    case ToRecord(_) => false
  }

  ghost predicate LeafOk<N, R>(G: Graph<N, R>, v: Val<N, R>) {
    && v.level == 0
    && |v.ptrs| == |v.keys|
    && (forall i :: 0 <= i < |v.ptrs| ==> v.ptrs[i].ToRecord?)
    && NextOk(G, v)
  }

  ghost predicate InnerOk<N, R>(G: Graph<N, R>, n: N, v: Val<N, R>) {
    && v.level > 0 && v.next.NullPtr?
    && |v.ptrs| == |v.keys| + 1
    && (forall i {:trigger ChildOk(G, n, v, i)} {:trigger v.ptrs[i]} :: 0 <= i < |v.ptrs| ==> ChildOk(G, n, v, i))
  }

  ghost predicate UpOk<N, R>(G: Graph<N, R>, root: N, n: N, v: Val<N, R>)
    requires root in G
  {
    if n == root then
      v.parent.NullPtr? && v.lo == MIN_KEY && v.hi == KEY_LIMIT
    else
      && v.parent.ToNode?
      && v.parent.node in G
      && !G[v.parent.node].leaf
      && ToNode(n) in G[v.parent.node].ptrs
      && v.level < G[root].level
  }

  ghost predicate Ok<N, R>(G: Graph<N, R>, root: N, n: N)
    requires root in G && n in G
  {
    var v := G[n];
    && KeysOk(v)
    && (if v.leaf then LeafOk(G, v) else InnerOk(G, n, v))
    && UpOk(G, root, n, v)
  }

  /** G is a search tree rooted at `root`: balanced, sorted, with correct parent and leaf links. */
  ghost predicate Shape<N, R>(G: Graph<N, R>, root: N) {
    && root in G
    && forall n {:trigger Ok(G, root, n)} :: n in G ==> Ok(G, root, n)
  }

  // ----- Two nodes of one level share no key -----

  /** A node's interval lies within its parent's. */
  lemma ParentCovers<N, R>(G: Graph<N, R>, root: N, n: N) returns (i: nat)
    requires Shape(G, root) && n in G && n != root
    ensures G[n].parent.ToNode? && G[n].parent.node in G
    ensures
      var p := G[n].parent.node;
      && G[p].level == G[n].level + 1 && G[p].level <= G[root].level
      && !G[p].leaf && KeysOk(G[p]) && |G[p].ptrs| == |G[p].keys| + 1
      && i <= |G[p].keys| && G[p].ptrs[i] == ToNode(n)
      && G[p].lo <= G[n].lo == Low(G[p], i) && G[n].hi == High(G[p], i) <= G[p].hi
  {
    assert Ok(G, root, n);
    var p := G[n].parent.node;
    assert Ok(G, root, p);
    i :| 0 <= i < |G[p].ptrs| && G[p].ptrs[i] == ToNode(n);
    assert ChildOk(G, p, G[p], i);
  }

  lemma {:induction false} SameLevelUnique<N, R>(G: Graph<N, R>, root: N, a: N, b: N, k: int)
    requires Shape(G, root) && a in G && b in G
    requires G[a].level == G[b].level
    requires G[a].lo <= k < G[a].hi && G[b].lo <= k < G[b].hi
    ensures a == b
    decreases G[root].level - G[a].level
  {
    assert a != root ==> Ok(G, root, a);
    assert b != root ==> Ok(G, root, b);
    if a != root && b != root {
      var i := ParentCovers(G, root, a);
      var j := ParentCovers(G, root, b);
      SameLevelUnique(G, root, G[a].parent.node, G[b].parent.node, k);
    }
  }

  /** Pointers of an inner node are pairwise distinct, because their intervals are. */
  lemma ChildrenDistinct<N, R>(G: Graph<N, R>, root: N, n: N, i: nat, j: nat)
    requires Shape(G, root) && n in G && !G[n].leaf
    requires i < |G[n].ptrs| && j < |G[n].ptrs|
    ensures G[n].ptrs[i] == G[n].ptrs[j] ==> i == j
  {
    assert Ok(G, root, n);
    assert ChildOk(G, n, G[n], i) && ChildOk(G, n, G[n], j);
  }

  /** Any child pointer of a node, from position s on, belongs to a node that names it as its parent. */
  lemma ChildLink<N, R>(G: Graph<N, R>, root: N, n: N, s: nat, c: N)
    requires Shape(G, root) && n in G && !G[n].leaf && s <= |G[n].ptrs|
    ensures ToNode(c) in G[n].ptrs[s..] ==>
      ToNode(c) in G[n].ptrs && c in G && G[c].parent == ToNode(n) && G[c].level + 1 == G[n].level
  {
    assert Ok(G, root, n);
    if ToNode(c) in G[n].ptrs[s..] {
      var i :| s <= i < |G[n].ptrs| && G[n].ptrs[i] == ToNode(c);
      assert ChildOk(G, n, G[n], i);
    }
  }
}
