/**
 The leaf chain. Following `next` from a leaf visits, in key order, every leaf from there on exactly once;
 from the leftmost leaf it lists the whole map.
 */
module BPlusChain {
  import opened BPlusGraph
  import opened BPlusMap

  /** The leaves met when following `next` from n. */
  ghost function Chain<N, R>(G: Graph<N, R>, root: N, n: N): (c: seq<N>)
    requires Shape(G, root) && n in G && G[n].leaf
    ensures forall m :: m in c ==> m in G && G[m].leaf && G[m].lo >= G[n].lo
    decreases KEY_LIMIT - G[n].lo
  {
    assert Ok(G, root, n);
    if G[n].next.NullPtr? then [n] else
    assert Ok(G, root, G[n].next.node);
    [n] + Chain(G, root, G[n].next.node)
  }

  /** The keys met on the way. */
  ghost function ChainKeys<N, R>(G: Graph<N, R>, c: seq<N>): seq<int>
    requires forall m :: m in c ==> m in G
  {
    if c == [] then [] else G[c[0]].keys + ChainKeys(G, c[1..])
  }

  lemma NextLeaf<N, R>(G: Graph<N, R>, root: N, n: N)
    requires Shape(G, root) && n in G && G[n].leaf
    ensures MIN_KEY <= G[n].lo < G[n].hi <= KEY_LIMIT && G[n].level == 0
    ensures if G[n].next.NullPtr? then G[n].hi == KEY_LIMIT
      else G[n].next.ToNode? && G[n].next.node in G && G[G[n].next.node].leaf && G[G[n].next.node].lo == G[n].hi
  {
    assert Ok(G, root, n);
    if G[n].next.ToNode? { assert Ok(G, root, G[n].next.node); }
  }

  /** The chain from n visits each leaf at or to the right of n once, and no other. */
  lemma {:induction false} ChainVisitsEveryLeafOnce<N, R>(G: Graph<N, R>, root: N, n: N)
    requires Shape(G, root) && n in G && G[n].leaf
    ensures var c := Chain(G, root, n);
      && (forall i, j :: 0 <= i < j < |c| ==> G[c[i]].hi <= G[c[j]].lo && c[i] != c[j])
      && (forall m :: m in G && G[m].leaf && G[m].lo >= G[n].lo ==> m in c)
    decreases KEY_LIMIT - G[n].lo
  {
    hide Shape, Ok;
    NextLeaf(G, root, n);
    var c := Chain(G, root, n);
    if G[n].next.ToNode? {
      var x := G[n].next.node;
      ChainVisitsEveryLeafOnce(G, root, x);
      var d := Chain(G, root, x);
      assert c == [n] + d;
      forall i, j | 0 <= i < j < |c| ensures G[c[i]].hi <= G[c[j]].lo && c[i] != c[j] {
        assert c[j] == d[j - 1] && d[j - 1] in d;
        NextLeaf(G, root, c[j]);
        if i > 0 { assert c[i] == d[i - 1]; }
      }
    }
    forall m | m in G && G[m].leaf && G[m].lo >= G[n].lo ensures m in c {
      NextLeaf(G, root, m);
      if G[m].lo < G[n].hi { SameLevelUnique(G, root, m, n, G[m].lo); }
    }
  }

  /** The keys along the chain are strictly increasing, and are the map's keys from n's lower bound on. */
  lemma {:induction false} ChainIsSortedMap<N, R>(G: Graph<N, R>, root: N, M: map<int, R>, n: N)
    requires Shape(G, root) && Holds(G, M) && n in G && G[n].leaf
    ensures var ks := ChainKeys(G, Chain(G, root, n));
      && Sorted(ks)
      && (forall k :: k in ks <==> k in M && k >= G[n].lo)
    decreases KEY_LIMIT - G[n].lo
  {
    NextLeaf(G, root, n);
    LeafKeys(G, root, n);
    var c := Chain(G, root, n);
    var ks := ChainKeys(G, c);
    var rest: seq<int> := [];
    if G[n].next.ToNode? {
      var x := G[n].next.node;
      ChainIsSortedMap(G, root, M, x);
      assert c[1..] == Chain(G, root, x);
      rest := ChainKeys(G, c[1..]);
      forall i | 0 <= i < |rest| ensures rest[i] >= G[n].hi { assert rest[i] in rest; }
    } else {
      assert c[1..] == [];
      KeysInRange(G, root, M);
    }
    assert ks == G[n].keys + rest;
    hide Shape, Holds, Chain, ChainKeys;
    forall k ensures k in ks <==> k in M && k >= G[n].lo {
      if G[n].lo <= k < G[n].hi { LeafDecides(G, root, M, n, k); }
    }
  }

  lemma KeysInRange<N, R>(G: Graph<N, R>, root: N, M: map<int, R>)
    requires Shape(G, root) && Holds(G, M)
    ensures forall k :: k in M ==> MIN_KEY <= k < KEY_LIMIT
  {
    forall k | k in M ensures MIN_KEY <= k < KEY_LIMIT {
      var m :| m in G && Stores(G, m, k);
      assert Ok(G, root, m);
    }
  }

  /** The leaf that the first pointers lead to. */
  ghost function Leftmost<N, R>(G: Graph<N, R>, root: N, n: N): (m: N)
    requires Shape(G, root) && n in G
    ensures m in G && G[m].leaf && G[m].lo == G[n].lo
    decreases G[n].level
  {
    assert Ok(G, root, n);
    if G[n].leaf then n
    else
      assert ChildOk(G, n, G[n], 0);
      Leftmost(G, root, G[n].ptrs[0].node)
  }

  /** From the leaf that the first pointers lead to, the chain has every leaf and lists exactly the map's keys. */
  lemma FullChain<N, R>(G: Graph<N, R>, root: N, M: map<int, R>)
    requires Shape(G, root) && Holds(G, M)
    ensures var c := Chain(G, root, Leftmost(G, root, root));
      && (forall m :: m in G && G[m].leaf <==> m in c)
      && Sorted(ChainKeys(G, c)) && (forall k :: k in ChainKeys(G, c) <==> k in M)
  {
    var n := Leftmost(G, root, root);
    assert Ok(G, root, root);
    ChainVisitsEveryLeafOnce(G, root, n);
    ChainIsSortedMap(G, root, M, n);
    KeysInRange(G, root, M);
    forall m | m in G && G[m].leaf ensures m in Chain(G, root, n) { assert Ok(G, root, m); }
  }
}
