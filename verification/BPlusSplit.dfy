/**
 The structural steps of insertion and what they keep: an entry enters or leaves a leaf, a node splits in
 two, the tree gains or loses a level at the root. Each takes a search tree to a search tree.
 */
module BPlusSplit {
  import opened Sequences
  import opened BPlusGraph

  // ----- One entry in or out of a leaf -----

  function InsertVal<N, R>(v: Val<N, R>, i: nat, k: int, r: R): Val<N, R>
    requires i <= |v.keys| && i <= |v.ptrs|
  {
    v.(keys := Ins(v.keys, i, k), ptrs := Ins(v.ptrs, i, ToRecord(r)))
  }

  /** Key i goes; in a leaf pointer i goes with it, in an inner node the pointer to its right. */
  function RemoveVal<N, R>(v: Val<N, R>, i: nat): Val<N, R>
    requires i < |v.keys| && |v.ptrs| == |v.keys| + (if v.leaf then 0 else 1)
  {
    v.(keys := Without(v.keys, i), ptrs := Without(v.ptrs, if v.leaf then i else i + 1))
  }

  /** i is where k belongs in a sorted sequence that lacks it. */
  ghost predicate Slot(s: seq<int>, i: nat, k: int) {
    && i <= |s|
    && (forall j :: 0 <= j < i ==> s[j] < k)
    && (forall j :: i <= j < |s| ==> k < s[j])
  }

  lemma InsSorted(s: seq<int>, i: nat, k: int)
    requires Sorted(s) && Slot(s, i, k)
    ensures Sorted(Ins(s, i, k))
  {}

  lemma LeafInsertShape<N, R>(G: Graph<N, R>, root: N, n: N, i: nat, k: int, r: R)
    requires Shape(G, root) && n in G && G[n].leaf
    requires G[n].lo <= k < G[n].hi && Slot(G[n].keys, i, k)
    requires |G[n].ptrs| == |G[n].keys|
    ensures Shape(G[n := InsertVal(G[n], i, k, r)], root)
  {
    var H := G[n := InsertVal(G[n], i, k, r)];
    forall m | m in H ensures Ok(H, root, m) {
      assert Ok(G, root, m) && Ok(G, root, n);
      if m == n { InsSorted(G[n].keys, i, k); }
      LeafEditKeepsOthers(G, H, root, n, m);
    }
  }

  /** Changing only the entries of a leaf is invisible to the other nodes. */
  lemma LeafEditKeepsOthers<N, R>(G: Graph<N, R>, H: Graph<N, R>, root: N, n: N, m: N)
    requires Shape(G, root) && n in G && G[n].leaf && m in G
    requires H.Keys == G.Keys && (forall x :: x in G && x != n ==> H[x] == G[x])
    requires exists ks, ps :: H[n] == G[n].(keys := ks, ptrs := ps)
    requires m == n ==>
      KeysOk(H[n]) && |H[n].ptrs| == |H[n].keys| && forall i :: 0 <= i < |H[n].ptrs| ==> H[n].ptrs[i].ToRecord?
    ensures Ok(H, root, m)
  {
    var v := G[m];
    assert Ok(G, root, m) && Ok(G, root, n);
    if m != n && !v.leaf {
      forall i | 0 <= i < |v.ptrs| ensures ChildOk(H, m, v, i) {
        assert ChildOk(G, m, v, i);
      }
    }
  }

  lemma LeafRemoveShape<N, R>(G: Graph<N, R>, root: N, n: N, i: nat)
    requires Shape(G, root) && n in G && G[n].leaf
    requires i < |G[n].keys| && |G[n].ptrs| == |G[n].keys|
    ensures Shape(G[n := RemoveVal(G[n], i)], root)
  {
    var H := G[n := RemoveVal(G[n], i)];
    forall m | m in H ensures Ok(H, root, m) {
      assert Ok(G, root, m) && Ok(G, root, n);
      LeafEditKeepsOthers(G, H, root, n, m);
    }
  }

  // ----- Splitting a node -----

  ghost predicate Divisible<N, R>(v: Val<N, R>, s: nat) {
    s < |v.keys| && |v.ptrs| == |v.keys| + (if v.leaf then 0 else 1)
  }

  /** s separates the halves. A leaf keeps its separator key on the right, an inner node gives it up. */
  ghost predicate Splittable<N, R>(v: Val<N, R>, s: nat) {
    Divisible(v, s) && (v.leaf ==> v.lo < v.keys[s])
  }

  function LeftHalf<N, R>(v: Val<N, R>, s: nat, right: N): Val<N, R>
    requires Divisible(v, s)
  {
    if v.leaf then v.(keys := v.keys[..s], ptrs := v.ptrs[..s], next := ToNode(right), hi := v.keys[s])
    else v.(keys := v.keys[..s], ptrs := v.ptrs[..s + 1], hi := v.keys[s])
  }

  function RightHalf<N, R>(v: Val<N, R>, s: nat): Val<N, R>
    requires Divisible(v, s)
  {
    if v.leaf then v.(keys := v.keys[s..], ptrs := v.ptrs[s..], lo := v.keys[s])
    else v.(keys := v.keys[s + 1..], ptrs := v.ptrs[s + 1..], lo := v.keys[s])
  }

  /** n keeps the left half, the new node `right` gets the right half and adopts its children. */
  ghost function Halves<N, R>(G: Graph<N, R>, n: N, s: nat, right: N): Graph<N, R>
    requires n in G && Splittable(G[n], s)
  {
    map m | m in G.Keys + {right} ::
      if m == right then RightHalf(G[n], s)
      else if m == n then LeftHalf(G[n], s, right)
      else if !G[n].leaf && ToNode(m) in G[n].ptrs[s + 1..] then G[m].(parent := ToNode(right))
      else G[m]
  }

  /** The parent p gains the separator and the pointer to the new node, to the right of child idx. */
  ghost function Linked<N, R>(H: Graph<N, R>, p: N, idx: nat, sep: int, right: N): Graph<N, R>
    requires p in H && idx <= |H[p].keys| && idx < |H[p].ptrs|
  {
    H[p := H[p].(keys := Ins(H[p].keys, idx, sep), ptrs := Ins(H[p].ptrs, idx + 1, ToNode(right)))]
  }

  /** The halves of a well-formed node have well-formed keys. */
  lemma HalvesKeysOk<N, R>(v: Val<N, R>, s: nat, right: N)
    requires KeysOk(v) && Splittable(v, s)
    ensures KeysOk(LeftHalf(v, s, right)) && KeysOk(RightHalf(v, s))
  {}

  /** The situation of a split below the root: child idx of p is n, which splits at s into n and `right`. */
  ghost predicate SplitAt<N, R>(G: Graph<N, R>, root: N, n: N, s: nat, right: N, p: N, idx: nat) {
    && Shape(G, root) && n in G && p in G && n != p && n != root && right !in G
    && Splittable(G[n], s)
    && G[n].parent == ToNode(p)
    && idx <= |G[p].keys| && idx < |G[p].ptrs| && G[p].ptrs[idx] == ToNode(n)
  }

  ghost function Split<N, R>(G: Graph<N, R>, root: N, n: N, s: nat, right: N, p: N, idx: nat): Graph<N, R>
    requires SplitAt(G, root, n, s, right, p, idx)
  {
    Linked(Halves(G, n, s, right), p, idx, G[n].keys[s], right)
  }

  /** Every old node keeps its level, kind and lower bound; only n changes its upper bound. */
  lemma SplitFrame<N, R>(G: Graph<N, R>, root: N, n: N, s: nat, right: N, p: N, idx: nat, m: N)
    requires SplitAt(G, root, n, s, right, p, idx) && m in G
    ensures
      var H := Split(G, root, n, s, right, p, idx);
      && H.Keys == G.Keys + {right}
      && H[m].level == G[m].level && H[m].leaf == G[m].leaf && H[m].lo == G[m].lo
      && (m != n ==> H[m].hi == G[m].hi && H[m].next == G[m].next)
      && (m != n && m != p ==> H[m].keys == G[m].keys && H[m].ptrs == G[m].ptrs)
      && H[p] == G[p].(keys := Ins(G[p].keys, idx, G[n].keys[s]), ptrs := Ins(G[p].ptrs, idx + 1, ToNode(right)))
      && H[n] == LeftHalf(G[n], s, right) && H[right] == RightHalf(G[n], s)
      && H[m].parent ==
           if !G[n].leaf && ToNode(m) in G[n].ptrs[s + 1..] then ToNode(right) else G[m].parent
  {
    assert Ok(G, root, n) && Ok(G, root, p) && Ok(G, root, m);
    if !G[n].leaf {
      ChildLink(G, root, n, s + 1, p);
      ChildLink(G, root, n, s + 1, n);
    }
  }

  lemma SplitChildren<N, R>(G: Graph<N, R>, root: N, n: N, s: nat, right: N, p: N, idx: nat, m: N, i: nat)
    requires SplitAt(G, root, n, s, right, p, idx)
    requires m in G && m != n && m != p && !G[m].leaf && i <= |G[m].keys| && i < |G[m].ptrs|
    ensures
      var H := Split(G, root, n, s, right, p, idx);
      m in H && H[m].keys == G[m].keys && H[m].ptrs == G[m].ptrs && ChildOk(H, m, H[m], i)
  {
    SplitFrame(G, root, n, s, right, p, idx, m);
    assert Ok(G, root, m) && Ok(G, root, n);
    assert ChildOk(G, m, G[m], i);
    var c := G[m].ptrs[i].node;
    SplitFrame(G, root, n, s, right, p, idx, c);
    if !G[n].leaf { ChildLink(G, root, n, s + 1, c); }
  }

  lemma SplitKeepsPointer<N, R>(G: Graph<N, R>, root: N, n: N, s: nat, right: N, p: N, idx: nat, q: N, m: N)
    requires SplitAt(G, root, n, s, right, p, idx) && q in G && ToNode(m) in G[q].ptrs
    requires q == n && !G[n].leaf ==> ToNode(m) !in G[n].ptrs[s + 1..]
    requires q == n ==> !G[n].leaf
    ensures var H := Split(G, root, n, s, right, p, idx); q in H && ToNode(m) in H[q].ptrs
  {
    hide Shape, Halves, Linked;
    var H := Split(G, root, n, s, right, p, idx);
    SplitFrame(G, root, n, s, right, p, idx, q);
    var j :| 0 <= j < |G[q].ptrs| && G[q].ptrs[j] == ToNode(m);
    if q == p {
      assert Ins(G[p].ptrs, idx + 1, ToNode(right))[if j <= idx then j else j + 1] == ToNode(m);
    } else if q == n {
      assert forall x :: s < x < |G[n].ptrs| ==> G[n].ptrs[x] == G[n].ptrs[s + 1..][x - s - 1];
      assert H[n].ptrs[j] == ToNode(m);
    }
  }

  lemma SplitUp<N, R>(G: Graph<N, R>, root: N, n: N, s: nat, right: N, p: N, idx: nat, m: N)
    requires SplitAt(G, root, n, s, right, p, idx) && m in G
    ensures
      var H := Split(G, root, n, s, right, p, idx);
      root in H && m in H && UpOk(H, root, m, H[m])
  {
    SplitFrame(G, root, n, s, right, p, idx, m);
    SplitFrame(G, root, n, s, right, p, idx, root);
    assert Ok(G, root, m) && Ok(G, root, n);
    if !G[n].leaf && ToNode(m) in G[n].ptrs[s + 1..] {
      ChildLink(G, root, n, s + 1, m);
    } else if m != root {
      SplitFrame(G, root, n, s, right, p, idx, G[m].parent.node);
      SplitKeepsPointer(G, root, n, s, right, p, idx, G[m].parent.node, m);
    }
  }

  lemma SplitNext<N, R>(G: Graph<N, R>, root: N, n: N, s: nat, right: N, p: N, idx: nat, m: N)
    requires SplitAt(G, root, n, s, right, p, idx)
    requires m in G && G[m].leaf
    ensures
      var H := Split(G, root, n, s, right, p, idx);
      m in H && NextOk(H, H[m]) && (m == n ==> NextOk(H, H[right]))
  {
    SplitFrame(G, root, n, s, right, p, idx, m);
    assert Ok(G, root, m);
    if G[m].next.ToNode? {
      SplitFrame(G, root, n, s, right, p, idx, G[m].next.node);
    }
  }

  lemma SplitOkOther<N, R>(G: Graph<N, R>, root: N, n: N, s: nat, right: N, p: N, idx: nat, m: N)
    requires SplitAt(G, root, n, s, right, p, idx) && m in G && m != n && m != p
    ensures var H := Split(G, root, n, s, right, p, idx); root in H && m in H && Ok(H, root, m)
  {
    var H := Split(G, root, n, s, right, p, idx);
    SplitFrame(G, root, n, s, right, p, idx, m);
    SplitUp(G, root, n, s, right, p, idx, m);
    assert Ok(G, root, m);
    if G[m].leaf {
      SplitNext(G, root, n, s, right, p, idx, m);
    } else {
      forall i | 0 <= i < |H[m].ptrs| ensures ChildOk(H, m, H[m], i) {
        SplitChildren(G, root, n, s, right, p, idx, m, i);
      }
    }
  }

  lemma SplitLeftChild<N, R>(G: Graph<N, R>, root: N, n: N, s: nat, right: N, p: N, idx: nat, i: nat)
    requires SplitAt(G, root, n, s, right, p, idx) && !G[n].leaf && i <= s
    ensures var H := Split(G, root, n, s, right, p, idx);
      n in H && i <= |H[n].keys| && i < |H[n].ptrs| && ChildOk(H, n, H[n], i)
  {
    assert Ok(G, root, n);
    assert ChildOk(G, n, G[n], i);
    var c := G[n].ptrs[i].node;
    SplitFrame(G, root, n, s, right, p, idx, n);
    SplitFrame(G, root, n, s, right, p, idx, c);
    if ToNode(c) in G[n].ptrs[s + 1..] {
      var j :| s + 1 <= j < |G[n].ptrs| && G[n].ptrs[j] == ToNode(c);
      ChildrenDistinct(G, root, n, i, j);
    }
  }

  lemma SplitRightChild<N, R>(G: Graph<N, R>, root: N, n: N, s: nat, right: N, p: N, idx: nat, i: nat)
    requires SplitAt(G, root, n, s, right, p, idx) && !G[n].leaf && s < i < |G[n].ptrs|
    ensures var H := Split(G, root, n, s, right, p, idx);
      right in H && i - s - 1 <= |H[right].keys| && i - s - 1 < |H[right].ptrs|
        && ChildOk(H, right, H[right], i - s - 1)
  {
    assert Ok(G, root, n);
    assert ChildOk(G, n, G[n], i);
    assert G[n].ptrs[s + 1..][i - s - 1] == G[n].ptrs[i];
    SplitFrame(G, root, n, s, right, p, idx, n);
    SplitFrame(G, root, n, s, right, p, idx, G[n].ptrs[i].node);
  }

  lemma SplitOkHalves<N, R>(G: Graph<N, R>, root: N, n: N, s: nat, right: N, p: N, idx: nat)
    requires SplitAt(G, root, n, s, right, p, idx)
    ensures
      var H := Split(G, root, n, s, right, p, idx);
      root in H && n in H && right in H && Ok(H, root, n) && Ok(H, root, right)
  {
    var H := Split(G, root, n, s, right, p, idx);
    SplitUp(G, root, n, s, right, p, idx, n);
    SplitFrame(G, root, n, s, right, p, idx, n);
    SplitFrame(G, root, n, s, right, p, idx, root);
    SplitFrame(G, root, n, s, right, p, idx, p);
    assert Ok(G, root, n) && Ok(G, root, p);
    HalvesKeysOk(G[n], s, right);
    assert H[p].ptrs[idx + 1] == ToNode(right);
    if G[n].leaf {
      SplitNext(G, root, n, s, right, p, idx, n);
    } else {
      forall i | 0 <= i < |H[n].ptrs| ensures ChildOk(H, n, H[n], i) {
        SplitLeftChild(G, root, n, s, right, p, idx, i);
      }
      forall i | 0 <= i < |H[right].ptrs| ensures ChildOk(H, right, H[right], i) {
        SplitRightChild(G, root, n, s, right, p, idx, i + s + 1);
      }
    }
  }

  /** In the parent, the new separator only cuts the interval of child idx. */
  lemma InsBounds<N, R>(v: Val<N, R>, w: Val<N, R>, idx: nat, sep: int, x: Ptr<N, R>, j: nat)
    requires idx <= |v.keys| && |v.ptrs| == |v.keys| + 1 && j < |v.ptrs|
    requires w.keys == Ins(v.keys, idx, sep) && w.ptrs == Ins(v.ptrs, idx + 1, x) && w.lo == v.lo && w.hi == v.hi
    ensures
      var i := if j <= idx then j else j + 1;
      && w.ptrs[i] == v.ptrs[j]
      && Low(w, i) == Low(v, j)
      && High(w, i) == (if j == idx then sep else High(v, j))
    ensures w.ptrs[idx + 1] == x && Low(w, idx + 1) == sep && High(w, idx + 1) == High(v, idx)
  {}

  lemma SplitParentChild<N, R>(G: Graph<N, R>, root: N, n: N, s: nat, right: N, p: N, idx: nat, j: nat)
    requires SplitAt(G, root, n, s, right, p, idx) && j < |G[p].ptrs|
    ensures var H := Split(G, root, n, s, right, p, idx); var i := if j <= idx then j else j + 1;
      p in H && i <= |H[p].keys| && i < |H[p].ptrs| && ChildOk(H, p, H[p], i)
  {
    var H := Split(G, root, n, s, right, p, idx);
    assert Ok(G, root, n) && Ok(G, root, p);
    assert ChildOk(G, p, G[p], j);
    var c := G[p].ptrs[j].node;
    SplitFrame(G, root, n, s, right, p, idx, p);
    SplitFrame(G, root, n, s, right, p, idx, c);
    assert c == n <==> j == idx by { if c == n { ChildrenDistinct(G, root, p, idx, j); } }
    if !G[n].leaf { ChildLink(G, root, n, s + 1, c); }
    InsBounds(G[p], H[p], idx, G[n].keys[s], ToNode(right), j);
  }

  lemma SplitParentKeys<N, R>(G: Graph<N, R>, root: N, n: N, s: nat, p: N, idx: nat)
    requires Shape(G, root) && n in G && p in G && n != root && Splittable(G[n], s)
    requires G[n].parent == ToNode(p) && idx < |G[p].ptrs| && G[p].ptrs[idx] == ToNode(n)
    ensures !G[p].leaf && |G[p].ptrs| == |G[p].keys| + 1
    ensures KeysOk(G[p].(keys := Ins(G[p].keys, idx, G[n].keys[s])))
  {
    SeparatorInside(G, root, n, s, p, idx);
    hide *;
    InsKeysOk(G[p], idx, G[n].keys[s]);
  }

  /** The separator lies strictly inside the child's share of the interval. */
  lemma SeparatorInside<N, R>(G: Graph<N, R>, root: N, n: N, s: nat, p: N, idx: nat)
    requires Shape(G, root) && n in G && p in G && n != root && Splittable(G[n], s)
    requires G[n].parent == ToNode(p) && idx < |G[p].ptrs| && G[p].ptrs[idx] == ToNode(n)
    ensures KeysOk(G[p]) && !G[p].leaf && |G[p].ptrs| == |G[p].keys| + 1 && idx <= |G[p].keys| && s < |G[n].keys|
    ensures Low(G[p], idx) < G[n].keys[s] < High(G[p], idx)
  {
    assert Ok(G, root, n) && Ok(G, root, p);
    assert ChildOk(G, p, G[p], idx);
  }

  lemma InsKeysOk<N, R>(v: Val<N, R>, idx: nat, k: int)
    requires KeysOk(v) && !v.leaf && idx <= |v.keys| && Low(v, idx) < k < High(v, idx)
    ensures KeysOk(v.(keys := Ins(v.keys, idx, k)))
  {
    InsSorted(v.keys, idx, k);
  }

  lemma SplitParentChildren<N, R>(G: Graph<N, R>, root: N, n: N, s: nat, right: N, p: N, idx: nat)
    requires SplitAt(G, root, n, s, right, p, idx)
    ensures var H := Split(G, root, n, s, right, p, idx); p in H && !H[p].leaf && InnerOk(H, p, H[p])
  {
    var H := Split(G, root, n, s, right, p, idx);
    SplitFrame(G, root, n, s, right, p, idx, p);
    SplitParentKeys(G, root, n, s, p, idx);
    SplitNewChild(G, root, n, s, right, p, idx);
    assert Ok(G, root, p);
    hide Shape, Ok, ChildOk, KeysOk, SplitAt, Split;
    forall i | 0 <= i < |H[p].ptrs| ensures ChildOk(H, p, H[p], i) {
      if i != idx + 1 {
        SplitParentChild(G, root, n, s, right, p, idx, if i <= idx then i else i - 1);
      }
    }
  }

  lemma SplitNewChild<N, R>(G: Graph<N, R>, root: N, n: N, s: nat, right: N, p: N, idx: nat)
    requires SplitAt(G, root, n, s, right, p, idx)
    ensures var H := Split(G, root, n, s, right, p, idx);
      p in H && idx + 1 <= |H[p].keys| && idx + 1 < |H[p].ptrs| && ChildOk(H, p, H[p], idx + 1)
  {
    var H := Split(G, root, n, s, right, p, idx);
    SplitFrame(G, root, n, s, right, p, idx, p);
    assert Ok(G, root, p) && Ok(G, root, n);
    assert ChildOk(G, p, G[p], idx);
    InsBounds(G[p], H[p], idx, G[n].keys[s], ToNode(right), idx);
  }

  lemma SplitOkParent<N, R>(G: Graph<N, R>, root: N, n: N, s: nat, right: N, p: N, idx: nat)
    requires SplitAt(G, root, n, s, right, p, idx)
    ensures var H := Split(G, root, n, s, right, p, idx); root in H && p in H && Ok(H, root, p)
  {
    SplitFrame(G, root, n, s, right, p, idx, p);
    SplitUp(G, root, n, s, right, p, idx, p);
    SplitParentKeys(G, root, n, s, p, idx);
    SplitParentChildren(G, root, n, s, right, p, idx);
  }

  /** Splitting a node below the root keeps the tree a search tree. */
  lemma SplitShape<N, R>(G: Graph<N, R>, root: N, n: N, s: nat, right: N, p: N, idx: nat)
    requires SplitAt(G, root, n, s, right, p, idx)
    ensures Shape(Split(G, root, n, s, right, p, idx), root)
  {
    var H := Split(G, root, n, s, right, p, idx);
    SplitFrame(G, root, n, s, right, p, idx, root);
    forall m | m in H ensures Ok(H, root, m) {
      if m == n || m == right { SplitOkHalves(G, root, n, s, right, p, idx); }
      else if m == p { SplitOkParent(G, root, n, s, right, p, idx); }
      else { SplitOkOther(G, root, n, s, right, p, idx, m); }
    }
  }

  // ----- A level more or less at the root -----

  /** A keyless node r above the root. Splitting the old root then fills r with its first key. */
  ghost function Grow<N, R>(G: Graph<N, R>, root: N, r: N): Graph<N, R>
    requires root in G
  {
    G[root := G[root].(parent := ToNode(r))]
     [r := Val(false, [], [ToNode(root)], NullPtr, NullPtr, G[root].level + 1, MIN_KEY, KEY_LIMIT)]
  }

  /** The root has lost its last key: its only child takes its place. */
  ghost function Collapse<N, R>(G: Graph<N, R>, root: N): Graph<N, R>
    requires root in G && |G[root].ptrs| == 1 && G[root].ptrs[0].ToNode? && G[root].ptrs[0].node in G
  {
    var c := G[root].ptrs[0].node;
    G[c := G[c].(parent := NullPtr)] - {root}
  }

  lemma GrowShape<N, R>(G: Graph<N, R>, root: N, r: N)
    requires Shape(G, root) && r !in G
    ensures Shape(Grow(G, root, r), r)
  {
    var H := Grow(G, root, r);
    assert Ok(G, root, root);
    forall m | m in H ensures Ok(H, r, m) {
      if m == r {
        assert ChildOk(H, r, H[r], 0);
        assert KeysOk(H[r]);
      } else {
        assert Ok(G, root, m);
        assert m != root ==> H[m] == G[m];
        assert ToNode(root) in H[r].ptrs by { assert H[r].ptrs[0] == ToNode(root); }
        if !G[m].leaf {
          forall i | 0 <= i < |H[m].ptrs| ensures ChildOk(H, m, H[m], i) {
            assert ChildOk(G, m, G[m], i);
            assert G[m].ptrs[i].node != root;
          }
        }
      }
    }
  }

  lemma CollapseShape<N, R>(G: Graph<N, R>, root: N)
    requires Shape(G, root) && !G[root].leaf && |G[root].keys| == 0
    ensures |G[root].ptrs| == 1 && G[root].ptrs[0].ToNode? && G[root].ptrs[0].node in G
    ensures G[root].ptrs[0].node != root
    ensures Shape(Collapse(G, root), G[root].ptrs[0].node)
  {
    assert Ok(G, root, root);
    assert ChildOk(G, root, G[root], 0);
    var c := G[root].ptrs[0].node;
    var H := Collapse(G, root);
    forall m | m in H ensures Ok(H, c, m) {
      assert Ok(G, root, m);
      CollapseUp(G, root, m);
      if !G[m].leaf {
        forall i | 0 <= i < |H[m].ptrs| ensures ChildOk(H, m, H[m], i) {
          assert ChildOk(G, m, G[m], i);
          var x := G[m].ptrs[i].node;
          assert x != root && x != c;
        }
      } else if G[m].next.ToNode? {
        assert G[m].next.node != root;
      }
    }
  }

  lemma CollapseUp<N, R>(G: Graph<N, R>, root: N, m: N)
    requires Shape(G, root) && !G[root].leaf && |G[root].keys| == 0
    requires |G[root].ptrs| == 1 && G[root].ptrs[0].ToNode? && G[root].ptrs[0].node in G
    requires m in G && m != root
    ensures var H, c := Collapse(G, root), G[root].ptrs[0].node; c in H && m in H && UpOk(H, c, m, H[m])
  {
    var H, c := Collapse(G, root), G[root].ptrs[0].node;
    assert Ok(G, root, root) && Ok(G, root, m);
    assert ChildOk(G, root, G[root], 0);
    if m != c {
      var q := G[m].parent.node;
      var i :| 0 <= i < |G[q].ptrs| && G[q].ptrs[i] == ToNode(m);
      assert Ok(G, root, q);
    }
  }

  /** n is the root and splits: the tree gains a level. */
  ghost function Rooted<N, R>(G: Graph<N, R>, n: N, s: nat, right: N, r: N): Graph<N, R>
    requires n in G && Splittable(G[n], s)
  {
    var H := Halves(G, n, s, right);
    H[n := H[n].(parent := ToNode(r))]
     [right := H[right].(parent := ToNode(r))]
     [r := Val(false, [G[n].keys[s]], [ToNode(n), ToNode(right)], NullPtr, NullPtr, G[n].level + 1, MIN_KEY, KEY_LIMIT)]
  }

  lemma RootedIsSplitOfGrown<N, R>(G: Graph<N, R>, n: N, s: nat, right: N, r: N)
    requires Shape(G, n) && Splittable(G[n], s) && right !in G && r !in G && r != right
    ensures SplitAt(Grow(G, n, r), r, n, s, right, r, 0)
    ensures Rooted(G, n, s, right, r) == Split(Grow(G, n, r), r, n, s, right, r, 0)
  {
    GrowShape(G, n, r);
    var K := Grow(G, n, r);
    assert Ok(G, n, n);
    assert SplitAt(K, r, n, s, right, r, 0);
    var A, B := Rooted(G, n, s, right, r), Split(K, r, n, s, right, r, 0);
    if !G[n].leaf {
      ChildLink(G, n, n, s + 1, n);
      ChildLink(G, n, n, s + 1, r);
    }
    forall m | m in B ensures m in A && A[m] == B[m] {
    }
    assert A.Keys == B.Keys;
  }

  lemma RootedShape<N, R>(G: Graph<N, R>, n: N, s: nat, right: N, r: N)
    requires Shape(G, n) && Splittable(G[n], s) && right !in G && r !in G && r != right
    ensures Shape(Rooted(G, n, s, right, r), r)
  {
    RootedIsSplitOfGrown(G, n, s, right, r);
    SplitShape(Grow(G, n, r), r, n, s, right, r, 0);
  }
}
