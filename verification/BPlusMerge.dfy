/**
 The structural steps of deletion: two neighbours merge, or divide their entries anew. Both take a search
 tree to a search tree; redistribution turns out to be a merge followed by a split.
 */
module BPlusMerge {
  import opened Sequences
  import opened BPlusGraph
  import opened BPlusSplit

  // ----- Merging two neighbours -----

  /** a and b are children i and i + 1 of p. */
  ghost predicate Neighbours<N, R>(G: Graph<N, R>, root: N, p: N, i: nat, a: N, b: N) {
    && Shape(G, root) && p in G && a in G && b in G && !G[p].leaf
    && i < |G[p].keys| && |G[p].ptrs| == |G[p].keys| + 1
    && G[p].ptrs[i] == ToNode(a) && G[p].ptrs[i + 1] == ToNode(b)
  }

  /** The left node takes over everything of the right one; inner nodes pull the separator down. */
  function Merged<N, R>(v: Val<N, R>, w: Val<N, R>, sep: int): Val<N, R> {
    if v.leaf then v.(keys := v.keys + w.keys, ptrs := v.ptrs + w.ptrs, next := w.next, hi := w.hi)
    else v.(keys := v.keys + [sep] + w.keys, ptrs := v.ptrs + w.ptrs, hi := w.hi)
  }

  /** b disappears into a, its children move to a, and p loses the separator and the pointer to b. */
  ghost function Coalesce<N, R>(G: Graph<N, R>, p: N, i: nat, a: N, b: N): Graph<N, R>
    requires p in G && a in G && b in G && !G[p].leaf
    requires i < |G[p].keys| && |G[p].ptrs| == |G[p].keys| + 1
  {
    map m | m in G.Keys - {b} ::
      if m == a then Merged(G[a], G[b], G[p].keys[i])
      else if m == p then RemoveVal(G[p], i)
      else if !G[b].leaf && ToNode(m) in G[b].ptrs then G[m].(parent := ToNode(a))
      else G[m]
  }

  lemma NeighboursFacts<N, R>(G: Graph<N, R>, root: N, p: N, i: nat, a: N, b: N)
    requires Neighbours(G, root, p, i, a, b)
    ensures a != b && a != p && b != p && a != root && b != root
    ensures G[a].leaf == G[b].leaf && G[a].level == G[b].level
    ensures G[a].level + 1 == G[b].level + 1 == G[p].level
    ensures G[a].hi == G[b].lo == G[p].keys[i]
    ensures G[a].lo == Low(G[p], i) && G[b].hi == High(G[p], i + 1)
    ensures G[a].parent == G[b].parent == ToNode(p)
    ensures |G[a].ptrs| == |G[a].keys| + (if G[a].leaf then 0 else 1)
    ensures |G[b].ptrs| == |G[b].keys| + (if G[b].leaf then 0 else 1)
  {
    assert Ok(G, root, p) && Ok(G, root, a) && Ok(G, root, b);
    assert ChildOk(G, p, G[p], i) && ChildOk(G, p, G[p], i + 1);
  }

  lemma ConcatSorted(s: seq<int>, t: seq<int>, k: int)
    requires Sorted(s) && Sorted(t)
    requires (forall i :: 0 <= i < |s| ==> s[i] < k) && (forall i :: 0 <= i < |t| ==> k <= t[i])
    ensures Sorted(s + t)
  {}

  lemma MergedKeysOk<N, R>(v: Val<N, R>, w: Val<N, R>, sep: int)
    requires KeysOk(v) && KeysOk(w) && v.hi == w.lo == sep && v.leaf == w.leaf
    ensures KeysOk(Merged(v, w, sep))
  {
    if v.leaf {
      ConcatSorted(v.keys, w.keys, sep);
    } else {
      ConcatSorted([sep], w.keys, sep + 1);
      ConcatSorted(v.keys, [sep] + w.keys, sep);
      assert v.keys + [sep] + w.keys == v.keys + ([sep] + w.keys);
    }
  }

  lemma CoalesceFrame<N, R>(G: Graph<N, R>, root: N, p: N, i: nat, a: N, b: N, m: N)
    requires Neighbours(G, root, p, i, a, b) && m in G && m != b
    ensures
      var H := Coalesce(G, p, i, a, b);
      && H.Keys == G.Keys - {b}
      && H[m].level == G[m].level && H[m].leaf == G[m].leaf && H[m].lo == G[m].lo
      && (m != a ==> H[m].hi == G[m].hi && H[m].next == G[m].next)
      && (m != a && m != p ==> H[m].keys == G[m].keys && H[m].ptrs == G[m].ptrs)
      && a in H && p in H && H[p] == RemoveVal(G[p], i)
      && H[a] == Merged(G[a], G[b], G[p].keys[i])
      && H[m].parent == (if !G[b].leaf && ToNode(m) in G[b].ptrs then ToNode(a) else G[m].parent)
  {
    NeighboursFacts(G, root, p, i, a, b);
    if !G[b].leaf {
      ChildLink(G, root, b, 0, p);
      ChildLink(G, root, b, 0, a);
    }
  }

  /** Only a is followed by b in the leaf chain. */
  lemma NextUnique<N, R>(G: Graph<N, R>, root: N, a: N, m: N)
    requires Shape(G, root) && a in G && m in G && G[a].leaf && G[m].leaf
    requires G[m].hi == G[a].hi
    ensures m == a
  {
    assert Ok(G, root, a) && Ok(G, root, m);
    SameLevelUnique(G, root, a, m, G[a].hi - 1);
  }

  lemma CoalesceNext<N, R>(G: Graph<N, R>, root: N, p: N, i: nat, a: N, b: N, m: N)
    requires Neighbours(G, root, p, i, a, b) && m in G && m != b && G[m].leaf
    ensures var H := Coalesce(G, p, i, a, b); m in H && NextOk(H, H[m])
  {
    NeighboursFacts(G, root, p, i, a, b);
    CoalesceFrame(G, root, p, i, a, b, m);
    assert Ok(G, root, m) && Ok(G, root, b) && Ok(G, root, a);
    var v := G[if m == a then b else m];
    if v.next.ToNode? {
      if v.next.node == b && m != a { NextUnique(G, root, a, m); }
      CoalesceFrame(G, root, p, i, a, b, v.next.node);
    }
  }

  lemma CoalesceKeepsPointer<N, R>(G: Graph<N, R>, root: N, p: N, i: nat, a: N, b: N, q: N, m: N)
    requires Neighbours(G, root, p, i, a, b) && q in G && m != b && ToNode(m) in G[q].ptrs
    ensures var H := Coalesce(G, p, i, a, b); var x := if q == b then a else q; x in H && ToNode(m) in H[x].ptrs
  {
    var H := Coalesce(G, p, i, a, b);
    NeighboursFacts(G, root, p, i, a, b);
    var j :| 0 <= j < |G[q].ptrs| && G[q].ptrs[j] == ToNode(m);
    if q == b {
      assert H[a].ptrs[|G[a].ptrs| + j] == ToNode(m);
    } else {
      CoalesceFrame(G, root, p, i, a, b, q);
      if q == a {
        assert H[a].ptrs[j] == ToNode(m);
      } else if q == p {
        assert H[p].ptrs[if j <= i then j else j - 1] == ToNode(m);
      }
    }
  }

  lemma CoalesceUp<N, R>(G: Graph<N, R>, root: N, p: N, i: nat, a: N, b: N, m: N)
    requires Neighbours(G, root, p, i, a, b) && m in G && m != b
    ensures var H := Coalesce(G, p, i, a, b); root in H && m in H && UpOk(H, root, m, H[m])
  {
    NeighboursFacts(G, root, p, i, a, b);
    CoalesceFrame(G, root, p, i, a, b, m);
    CoalesceFrame(G, root, p, i, a, b, root);
    assert Ok(G, root, m);
    if m != root {
      var q := G[m].parent.node;
      CoalesceKeepsPointer(G, root, p, i, a, b, q, m);
      assert Ok(G, root, b);
      if q == b {
        CoalesceFrame(G, root, p, i, a, b, a);
      } else {
        CoalesceFrame(G, root, p, i, a, b, q);
        if !G[b].leaf { ChildLink(G, root, b, 0, m); assert G[b].ptrs[0..] == G[b].ptrs; }
      }
    }
  }

  lemma CoalesceChild<N, R>(G: Graph<N, R>, root: N, p: N, i: nat, a: N, b: N, m: N, j: nat)
    requires Neighbours(G, root, p, i, a, b) && m in G && m != a && m != b && m != p
    requires !G[m].leaf && j <= |G[m].keys| && j < |G[m].ptrs|
    ensures
      var H := Coalesce(G, p, i, a, b);
      m in H && H[m].keys == G[m].keys && H[m].ptrs == G[m].ptrs && ChildOk(H, m, H[m], j)
  {
    NeighboursFacts(G, root, p, i, a, b);
    CoalesceFrame(G, root, p, i, a, b, m);
    assert Ok(G, root, m);
    assert ChildOk(G, m, G[m], j);
    var c := G[m].ptrs[j].node;
    CoalesceFrame(G, root, p, i, a, b, c);
    if !G[b].leaf { ChildLink(G, root, b, 0, c); assert G[b].ptrs[0..] == G[b].ptrs; }
  }

  lemma CoalesceOkOther<N, R>(G: Graph<N, R>, root: N, p: N, i: nat, a: N, b: N, m: N)
    requires Neighbours(G, root, p, i, a, b) && m in G && m != a && m != b && m != p
    ensures var H := Coalesce(G, p, i, a, b); root in H && m in H && Ok(H, root, m)
  {
    var H := Coalesce(G, p, i, a, b);
    CoalesceFrame(G, root, p, i, a, b, m);
    CoalesceUp(G, root, p, i, a, b, m);
    assert Ok(G, root, m);
    if G[m].leaf {
      CoalesceNext(G, root, p, i, a, b, m);
    } else {
      forall j | 0 <= j < |H[m].ptrs| ensures ChildOk(H, m, H[m], j) {
        CoalesceChild(G, root, p, i, a, b, m, j);
      }
    }
  }

  lemma CoalesceMergedChild<N, R>(G: Graph<N, R>, root: N, p: N, i: nat, a: N, b: N, j: nat)
    requires Neighbours(G, root, p, i, a, b) && !G[a].leaf && j < |G[a].ptrs| + |G[b].ptrs|
    ensures
      var H := Coalesce(G, p, i, a, b);
      a in H && j <= |H[a].keys| && j < |H[a].ptrs| && ChildOk(H, a, H[a], j)
  {
    NeighboursFacts(G, root, p, i, a, b);
    CoalesceFrame(G, root, p, i, a, b, a);
    assert Ok(G, root, a) && Ok(G, root, b);
    var x, jj := if j < |G[a].ptrs| then a else b, if j < |G[a].ptrs| then j else j - |G[a].ptrs|;
    assert ChildOk(G, x, G[x], jj);
    var c := G[x].ptrs[jj].node;
    CoalesceFrame(G, root, p, i, a, b, c);
    assert x == b ==> G[b].ptrs[jj] == ToNode(c);
  }

  lemma CoalesceOkMerged<N, R>(G: Graph<N, R>, root: N, p: N, i: nat, a: N, b: N)
    requires Neighbours(G, root, p, i, a, b)
    ensures var H := Coalesce(G, p, i, a, b); root in H && a in H && Ok(H, root, a)
  {
    var H := Coalesce(G, p, i, a, b);
    NeighboursFacts(G, root, p, i, a, b);
    CoalesceFrame(G, root, p, i, a, b, a);
    CoalesceUp(G, root, p, i, a, b, a);
    assert Ok(G, root, a) && Ok(G, root, b);
    MergedKeysOk(G[a], G[b], G[p].keys[i]);
    if G[a].leaf {
      CoalesceNext(G, root, p, i, a, b, a);
    } else {
      forall j | 0 <= j < |H[a].ptrs| ensures ChildOk(H, a, H[a], j) {
        CoalesceMergedChild(G, root, p, i, a, b, j);
      }
    }
  }

  lemma CoalesceParentChild<N, R>(G: Graph<N, R>, root: N, p: N, i: nat, a: N, b: N, j: nat)
    requires Neighbours(G, root, p, i, a, b) && j < |G[p].keys|
    ensures
      var H := Coalesce(G, p, i, a, b);
      p in H && j <= |H[p].keys| && j < |H[p].ptrs| && ChildOk(H, p, H[p], j)
  {
    NeighboursFacts(G, root, p, i, a, b);
    CoalesceFrame(G, root, p, i, a, b, p);
    assert Ok(G, root, p);
    hide Shape, Coalesce, Ok, InnerOk, KeysOk, UpOk;
    var jj := if j <= i then j else j + 1;
    assert ChildOk(G, p, G[p], jj);
    var c := G[p].ptrs[jj].node;
    ChildrenDistinct(G, root, p, jj, i + 1);
    ChildrenDistinct(G, root, p, jj, i);
    CoalesceFrame(G, root, p, i, a, b, c);
    if !G[b].leaf { ChildLink(G, root, b, 0, c); assert G[b].ptrs[0..] == G[b].ptrs; }
  }

  lemma CoalesceOkParent<N, R>(G: Graph<N, R>, root: N, p: N, i: nat, a: N, b: N)
    requires Neighbours(G, root, p, i, a, b)
    ensures var H := Coalesce(G, p, i, a, b); root in H && p in H && Ok(H, root, p)
  {
    var H := Coalesce(G, p, i, a, b);
    NeighboursFacts(G, root, p, i, a, b);
    CoalesceFrame(G, root, p, i, a, b, p);
    CoalesceUp(G, root, p, i, a, b, p);
    assert Ok(G, root, p);
    assert KeysOk(H[p]);
    hide Neighbours, Shape, Coalesce, KeysOk, ChildOk;
    forall j | 0 <= j < |H[p].ptrs| ensures ChildOk(H, p, H[p], j) {
      CoalesceParentChild(G, root, p, i, a, b, j);
    }
  }

  /** Merging two neighbours keeps the tree a search tree. */
  lemma CoalesceShape<N, R>(G: Graph<N, R>, root: N, p: N, i: nat, a: N, b: N)
    requires Neighbours(G, root, p, i, a, b)
    ensures Shape(Coalesce(G, p, i, a, b), root)
  {
    var H := Coalesce(G, p, i, a, b);
    NeighboursFacts(G, root, p, i, a, b);
    CoalesceFrame(G, root, p, i, a, b, root);
    forall m | m in H ensures Ok(H, root, m) {
      if m == a { CoalesceOkMerged(G, root, p, i, a, b); }
      else if m == p { CoalesceOkParent(G, root, p, i, a, b); }
      else { CoalesceOkOther(G, root, p, i, a, b, m); }
    }
  }

  // ----- Shifting entries between two neighbours -----

  /**
   Redistribution is a merge followed by a split elsewhere: if G and H differ only in that a and b divide
   the same entries at s, with the separator in p following, then H is that merge and split of G.
   */
  lemma ShiftIsMergeThenSplit<N, R>(
    G: Graph<N, R>, H: Graph<N, R>, root: N, p: N, i: nat, a: N, b: N, s: nat)
    requires Neighbours(G, root, p, i, a, b)
    requires
      var v := Merged(G[a], G[b], G[p].keys[i]);
      && Splittable(v, s)
      && H.Keys == G.Keys
      && H[a] == LeftHalf(v, s, b) && H[b] == RightHalf(v, s)
      && H[p] == G[p].(keys := G[p].keys[i := v.keys[s]])
      && forall m :: m in G && m != a && m != b && m != p ==>
           H[m] == if v.leaf then G[m]
                   else if ToNode(m) in v.ptrs[s + 1..] then G[m].(parent := ToNode(b))
                   else if ToNode(m) in v.ptrs then G[m].(parent := ToNode(a))
                   else G[m]
    ensures
      var K := Coalesce(G, p, i, a, b);
      SplitAt(K, root, a, s, b, p, i) && H == Split(K, root, a, s, b, p, i)
  {
    assert p in G && a in G && b in G && !G[p].leaf && i < |G[p].keys| && |G[p].ptrs| == |G[p].keys| + 1 by {
      NeighboursFacts(G, root, p, i, a, b);
    }
    hide *;
    ShiftSplits(G, root, p, i, a, b, s);
    NeighboursFacts(G, root, p, i, a, b);
    var K := Coalesce(G, p, i, a, b);
    var v := Merged(G[a], G[b], G[p].keys[i]);
    var L := Split(K, root, a, s, b, p, i);
    forall m | m in G ensures m in L && L[m] == H[m] {
      if m == p {
        ShiftParent(G, root, p, i, a, b, s);
      } else if m != a && m != b {
        ShiftOther(G, root, p, i, a, b, s, m);
      }
    }
  }

  /** The merged node can be split at s, and a and b are then its halves. */
  lemma ShiftSplits<N, R>(G: Graph<N, R>, root: N, p: N, i: nat, a: N, b: N, s: nat)
    requires Neighbours(G, root, p, i, a, b) && Splittable(Merged(G[a], G[b], G[p].keys[i]), s)
    ensures Divisible(Merged(G[a], G[b], G[p].keys[i]), s)
    ensures
      var K, v := Coalesce(G, p, i, a, b), Merged(G[a], G[b], G[p].keys[i]);
      && SplitAt(K, root, a, s, b, p, i)
      && var L := Split(K, root, a, s, b, p, i);
      && L.Keys == G.Keys && L[a] == LeftHalf(v, s, b) && L[b] == RightHalf(v, s)
  {
    var K := Coalesce(G, p, i, a, b);
    NeighboursFacts(G, root, p, i, a, b);
    CoalesceShape(G, root, p, i, a, b);
    CoalesceFrame(G, root, p, i, a, b, a);
    CoalesceFrame(G, root, p, i, a, b, p);
    assert K[p].ptrs[i] == ToNode(a);
    hide Shape, Coalesce;
    assert SplitAt(K, root, a, s, b, p, i);
    SplitFrame(K, root, a, s, b, p, i, a);
  }

  /** The parent has its old pointers, and the new separator. */
  lemma ShiftParent<N, R>(G: Graph<N, R>, root: N, p: N, i: nat, a: N, b: N, s: nat)
    requires Neighbours(G, root, p, i, a, b)
    requires Splittable(Merged(G[a], G[b], G[p].keys[i]), s) && SplitAt(Coalesce(G, p, i, a, b), root, a, s, b, p, i)
    ensures
      var v, L := Merged(G[a], G[b], G[p].keys[i]), Split(Coalesce(G, p, i, a, b), root, a, s, b, p, i);
      && s < |v.keys| && i < |G[p].keys| && p in L && L[p] == G[p].(keys := G[p].keys[i := v.keys[s]])
  {
    var K, v := Coalesce(G, p, i, a, b), Merged(G[a], G[b], G[p].keys[i]);
    NeighboursFacts(G, root, p, i, a, b);
    CoalesceFrame(G, root, p, i, a, b, a);
    CoalesceFrame(G, root, p, i, a, b, p);
    assert K[a] == v && K[p] == RemoveVal(G[p], i) && !G[p].leaf && G[p].ptrs[i + 1] == ToNode(b);
    assert Shape(K, root) && a in K;
    SplitFrame(K, root, a, s, b, p, i, p);
    if !v.leaf { ChildLink(K, root, a, s + 1, p); }
    hide Shape, Coalesce, Split, SplitAt, Neighbours;
    assert Ins(Without(G[p].keys, i), i, v.keys[s]) == G[p].keys[i := v.keys[s]];
    assert Ins(Without(G[p].ptrs, i + 1), i + 1, ToNode(b)) == G[p].ptrs;
  }

  lemma ShiftOther<N, R>(G: Graph<N, R>, root: N, p: N, i: nat, a: N, b: N, s: nat, m: N)
    requires Neighbours(G, root, p, i, a, b) && m in G && m != a && m != b && m != p
    requires Splittable(Merged(G[a], G[b], G[p].keys[i]), s)
    requires SplitAt(Coalesce(G, p, i, a, b), root, a, s, b, p, i)
    ensures
      var v := Merged(G[a], G[b], G[p].keys[i]);
      var L := Split(Coalesce(G, p, i, a, b), root, a, s, b, p, i);
      m in L && L[m] == if v.leaf then G[m]
                        else if ToNode(m) in v.ptrs[s + 1..] then G[m].(parent := ToNode(b))
                        else if ToNode(m) in v.ptrs then G[m].(parent := ToNode(a))
                        else G[m]
  {
    var v := Merged(G[a], G[b], G[p].keys[i]);
    NeighboursFacts(G, root, p, i, a, b);
    CoalesceFrame(G, root, p, i, a, b, m);
    CoalesceFrame(G, root, p, i, a, b, a);
    if !v.leaf {
      ChildLink(G, root, a, 0, m);
      assert G[a].ptrs[0..] == G[a].ptrs;
    }
  }

  /** In a well-formed chain the left neighbour's `next` is the right neighbour. */
  lemma NextIsNeighbour<N, R>(G: Graph<N, R>, root: N, p: N, i: nat, a: N, b: N)
    requires Neighbours(G, root, p, i, a, b) && G[a].leaf
    ensures G[a].next == ToNode(b)
  {
    NeighboursFacts(G, root, p, i, a, b);
    assert Ok(G, root, a) && Ok(G, root, b);
    var c := G[a].next.node;
    assert Ok(G, root, c);
    SameLevelUnique(G, root, c, b, G[b].lo);
  }
}
