/**
 How many keys a tree of a given height must hold. The occupancy minimums of leaves and inner nodes
 multiply up along the levels.
 */
module BPlusSize {
  import opened BPlusGraph
  import opened BPlusMap

  ghost function Between<R>(M: map<int, R>, lo: int, hi: int): set<int> {
    set k | k in M && lo <= k < hi
  }

  function Pow(b: nat, e: nat): nat {
    if e == 0 then 1 else b * Pow(b, e - 1)
  }

  /** The least number of keys below a node `level` levels above the leaves, other than the root. */
  function LeastBelow(order: nat, level: nat): nat
    requires order >= 3
  {
    Pow(Cut(order), level) * Cut(order - 1)
  }

  lemma BetweenSplits<R>(M: map<int, R>, lo: int, mid: int, hi: int)
    requires lo <= mid <= hi
    ensures |Between(M, lo, hi)| == |Between(M, lo, mid)| + |Between(M, mid, hi)|
  {
    assert Between(M, lo, hi) == Between(M, lo, mid) + Between(M, mid, hi);
    assert Between(M, lo, mid) !! Between(M, mid, hi);
  }

  /** A leaf's keys are exactly the map's keys in its interval. */
  lemma LeafCount<N, R>(G: Graph<N, R>, root: N, M: map<int, R>, n: N)
    requires Shape(G, root) && Holds(G, M) && n in G && G[n].leaf
    ensures |Between(M, G[n].lo, G[n].hi)| == |G[n].keys|
  {
    assert Ok(G, root, n);
    forall k | G[n].lo <= k < G[n].hi ensures k in M <==> k in G[n].keys { LeafDecides(G, root, M, n, k); }
    var S := set k | k in G[n].keys;
    assert Between(M, G[n].lo, G[n].hi) == S;
    SortedCount(G[n].keys);
  }

  lemma {:induction false} SortedCount(s: seq<int>)
    requires Sorted(s)
    ensures |set k | k in s| == |s|
  {
    if s != [] {
      var t := s[..|s| - 1];
      SortedCount(t);
      assert (set k | k in s) == (set k | k in t) + {s[|s| - 1]};
    }
  }

  /** If each of the first j children holds at least x keys, together they hold at least j * x. */
  lemma {:induction false} ChildrenCount<N, R, S>(G: Graph<N, R>, root: N, M: map<int, S>, n: N, j: nat, x: nat)
    requires Shape(G, root) && n in G && !G[n].leaf && 1 <= j <= |G[n].ptrs| && |G[n].ptrs| == |G[n].keys| + 1
    requires forall i :: 0 <= i < j ==> |Between(M, Low(G[n], i), High(G[n], i))| >= x
    ensures |Between(M, G[n].lo, High(G[n], j - 1))| >= j * x
  {
    assert Ok(G, root, n);
    if j > 1 {
      ChildrenCount(G, root, M, n, j - 1, x);
      assert High(G[n], j - 2) == Low(G[n], j - 1);
      assert Low(G[n], j - 1) <= High(G[n], j - 1);
      BetweenSplits(M, G[n].lo, Low(G[n], j - 1), High(G[n], j - 1));
      assert j * x == (j - 1) * x + x;
    }
  }

  lemma {:induction false} LeastBelowHolds<N, R>(G: Graph<N, R>, root: N, order: nat, M: map<int, R>, n: N)
    requires IsTree(G, root, order, M) && n in G && n != root
    ensures |Between(M, G[n].lo, G[n].hi)| >= LeastBelow(order, G[n].level)
    decreases G[n].level
  {
    assert Ok(G, root, n) && Filled(G, root, order, n);
    if G[n].leaf {
      LeafCount(G, root, M, n);
      assert LeastBelow(order, 0) == Cut(order - 1);
    } else {
      var x := LeastBelow(order, G[n].level - 1);
      ChildrenHold(G, root, order, M, n);
      ChildrenCount(G, root, M, n, |G[n].ptrs|, x);
      Scale(order, G[n].level, |G[n].ptrs|);
    }
  }

  lemma ChildrenHold<N, R>(G: Graph<N, R>, root: N, order: nat, M: map<int, R>, n: N)
    requires IsTree(G, root, order, M) && n in G && !G[n].leaf
    ensures G[n].level >= 1 && |G[n].ptrs| == |G[n].keys| + 1
    ensures forall i :: 0 <= i < |G[n].ptrs| ==>
      |Between(M, Low(G[n], i), High(G[n], i))| >= LeastBelow(order, G[n].level - 1)
    decreases G[n].level, 0
  {
    assert Ok(G, root, n);
    forall i | 0 <= i < |G[n].ptrs|
      ensures |Between(M, Low(G[n], i), High(G[n], i))| >= LeastBelow(order, G[n].level - 1)
    {
      assert ChildOk(G, n, G[n], i);
      var c := G[n].ptrs[i].node;
      assert Ok(G, root, root);
      assert c != root;
      LeastBelowHolds(G, root, order, M, c);
    }
  }

  lemma Scale(order: nat, level: nat, c: nat)
    requires order >= 3 && level >= 1 && c >= Cut(order)
    ensures c * LeastBelow(order, level - 1) >= LeastBelow(order, level)
  {
    var x, y := Pow(Cut(order), level - 1), Cut(order - 1);
    assert LeastBelow(order, level) == (Cut(order) * x) * y;
    assert LeastBelow(order, level - 1) == x * y;
    Associate(Cut(order), x, y);
    MoreTimes(Cut(order), c, x * y);
  }

  lemma Associate(a: nat, x: nat, y: nat)
    ensures (a * x) * y == a * (x * y)
  {}

  lemma {:induction false} MoreTimes(a: nat, c: nat, z: nat)
    requires a <= c
    ensures a * z <= c * z
    decreases c - a
  {
    if a < c {
      MoreTimes(a, c - 1, z);
      assert c * z == (c - 1) * z + z;
    }
  }

  /** A tree of height h >= 1 holds at least 2 * ((order + 1) / 2)^(h-1) * (order / 2) keys. */
  lemma LeastKeys<N, R>(G: Graph<N, R>, root: N, order: nat, M: map<int, R>)
    requires IsTree(G, root, order, M) && G[root].level >= 1
    ensures |M| >= 2 * Pow((order + 1) / 2, G[root].level - 1) * (order / 2)
  {
    assert Ok(G, root, root) && Filled(G, root, order, root);
    var x := LeastBelow(order, G[root].level - 1);
    CutIs(order);
    ChildrenHold(G, root, order, M, root);
    ChildrenCount(G, root, M, root, |G[root].ptrs|, x);
    assert Between(M, MIN_KEY, KEY_LIMIT) <= M.Keys;
    SubsetCount(Between(M, MIN_KEY, KEY_LIMIT), M.Keys);
    AtLeastTwice(|G[root].ptrs|, Pow(Cut(order), G[root].level - 1), Cut(order - 1));
  }

  lemma CutIs(order: nat)
    requires order >= 1
    ensures Cut(order) == (order + 1) / 2 && Cut(order - 1) == order / 2
  {}

  lemma AtLeastTwice(c: nat, p: nat, q: nat)
    requires c >= 2
    ensures c * (p * q) >= 2 * p * q
  {
    assert (c - 2) * (p * q) >= 0;
  }

  lemma SubsetCount<T>(a: set<T>, b: set<T>)
    requires a <= b
    ensures |a| <= |b|
  {
    assert b == a + (b - a);
  }

  // ----- How many nodes a tree must have -----

  /** Every inner node below the root has at least b children. */
  ghost predicate Branching<N, R>(G: Graph<N, R>, root: N, b: nat) {
    forall n :: n in G && n != root && !G[n].leaf ==> |G[n].ptrs| >= b
  }

  /** Where the intervals of the leaves in S start. */
  ghost function Starts<N, R>(G: Graph<N, R>, S: set<N>): map<int, bool>
    requires S <= G.Keys
  {
    map m | m in S :: G[m].lo := true
  }

  /** There are no more starts than leaves. */
  lemma {:induction false} StartsCount<N, R>(G: Graph<N, R>, S: set<N>)
    requires S <= G.Keys
    ensures |Starts(G, S)| <= |S|
  {
    if S == {} {
      assert Starts(G, S) == map[];
    } else {
      var m :| m in S;
      StartsCount(G, S - {m});
      assert Starts(G, S) == Starts(G, S - {m})[G[m].lo := true];
    }
  }

  ghost function Leaves<N, R>(G: Graph<N, R>): set<N> {
    set m | m in G && G[m].leaf
  }

  /** Below a node other than the root there are at least b^level leaves. */
  lemma {:induction false} LeavesBelow<N, R>(G: Graph<N, R>, root: N, b: nat, n: N)
    requires Shape(G, root) && Branching(G, root, b) && n in G && n != root
    ensures |Between(Starts(G, Leaves(G)), G[n].lo, G[n].hi)| >= Pow(b, G[n].level)
    decreases G[n].level
  {
    assert Ok(G, root, n);
    var M := Starts(G, Leaves(G));
    if G[n].leaf {
      assert n in Leaves(G);
      assert G[n].lo in Between(M, G[n].lo, G[n].hi);
    } else {
      var x := Pow(b, G[n].level - 1);
      LeavesBelowChildren(G, root, b, n);
      ChildrenCount(G, root, M, n, |G[n].ptrs|, x);
      MoreTimes(b, |G[n].ptrs|, x);
    }
  }

  lemma LeavesBelowChildren<N, R>(G: Graph<N, R>, root: N, b: nat, n: N)
    requires Shape(G, root) && Branching(G, root, b) && n in G && !G[n].leaf
    ensures G[n].level >= 1 && |G[n].ptrs| == |G[n].keys| + 1
    ensures forall i :: 0 <= i < |G[n].ptrs| ==>
      |Between(Starts(G, Leaves(G)), Low(G[n], i), High(G[n], i))| >= Pow(b, G[n].level - 1)
    decreases G[n].level, 0
  {
    assert Ok(G, root, n) && Ok(G, root, root);
    forall i | 0 <= i < |G[n].ptrs|
      ensures |Between(Starts(G, Leaves(G)), Low(G[n], i), High(G[n], i))| >= Pow(b, G[n].level - 1)
    {
      assert ChildOk(G, n, G[n], i);
      LeavesBelow(G, root, b, G[n].ptrs[i].node);
    }
  }

  /** A tree of height h >= 1, whose root has a key, has at least 2 * b^(h-1) leaves. */
  lemma LeastNodes<N, R>(G: Graph<N, R>, root: N, b: nat)
    requires Shape(G, root) && Branching(G, root, b) && G[root].level >= 1 && G[root].keys != []
    ensures |G| >= 2 * Pow(b, G[root].level - 1)
  {
    assert Ok(G, root, root);
    var M, x := Starts(G, Leaves(G)), Pow(b, G[root].level - 1);
    LeavesBelowChildren(G, root, b, root);
    ChildrenCount(G, root, M, root, |G[root].ptrs|, x);
    MoreTimes(2, |G[root].ptrs|, x);
    SubsetCount(Between(M, MIN_KEY, KEY_LIMIT), M.Keys);
    StartsCount(G, Leaves(G));
    SubsetCount(Leaves(G), G.Keys);
  }

  lemma {:induction false} PowGrows(b: nat, d: nat, e: nat)
    requires b >= 1 && d <= e
    ensures Pow(b, d) <= Pow(b, e)
    decreases e
  {
    if d < e {
      PowGrows(b, d, e - 1);
      MoreTimes(1, b, Pow(b, e - 1));
    }
  }

  /** Below a node there are nodes on every level, so at least one more than it has levels below it. */
  lemma {:induction false} LevelsHaveNodes<N, R>(G: Graph<N, R>, root: N, n: N) returns (S: set<N>)
    requires Shape(G, root) && n in G
    ensures S <= G.Keys && |S| >= G[n].level + 1 && forall m :: m in S ==> G[m].level <= G[n].level
    decreases G[n].level
  {
    assert Ok(G, root, n);
    if G[n].leaf {
      S := {n};
    } else {
      assert ChildOk(G, n, G[n], 0);
      S := LevelsHaveNodes(G, root, G[n].ptrs[0].node);
      assert n !in S;
      S := S + {n};
    }
  }

  /** There are n - 1 numbers from 1 to n - 1. */
  lemma {:induction false} FewNumbers(S: set<nat>, n: nat)
    requires forall p :: p in S ==> 1 <= p < n
    ensures |S| <= if n == 0 then 0 else n - 1
  {
    if n > 1 {
      FewNumbers(S - {n - 1}, n - 1);
    } else {
      assert S == {};
    }
  }
}
