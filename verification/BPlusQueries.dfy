/**
 Queries that walk the tree: its height, and the range scan along the leaf chain.

 The range scan gives up when the leaf it lands on holds no key at or above the start of the range, even if
 the next leaf does. `FindRange` states exactly when its answer is the range: unless the scan skips such a leaf.
 */
module BPlusQueries {
  import opened BPlusGraph
  import opened BPlusMap
  import opened BPlusChain
  import opened BPlusNode
  import opened BPlusTree

  /** The number of edges from the root to a leaf, along the first pointers. */
  method Height(order: nat, root: Node, ghost T: Graph<Node, Record>, ghost repr: set<object>) returns (h: nat)
    requires Stored(order, T, repr) && Shape(T, root)
    ensures root in T && h == T[root].level
  {
    h := 0;
    var c := root;
    StoredKeys(order, T, repr, c);
    assert Ok(T, root, root);
    while !c.isLeaf
      invariant c in T && h + T[c].level == T[root].level && c.isLeaf == T[c].leaf
      decreases T[c].level
    {
      StoredKeys(order, T, repr, c);
      assert Ok(T, root, c) && ChildOk(T, c, T[c], 0);
      c := c.pointers[0].node;
      h := h + 1;
      StoredKeys(order, T, repr, c);
    }
    assert Ok(T, root, c);
  }

  /** ks lists the keys of M in lo..hi, in order. */
  ghost predicate IsRange<R>(M: map<int, R>, lo: int, hi: int, ks: seq<int>) {
    Sorted(ks) && forall k :: k in ks <==> k in M && lo <= k <= hi
  }

  /** The leaf that covers k holds a key at or above k. */
  ghost predicate Lands<N, R>(G: Graph<N, R>, k: int) {
    exists n :: n in G && G[n].leaf && G[n].lo <= k < G[n].hi && exists i :: 0 <= i < |G[n].keys| && G[n].keys[i] >= k
  }

  /** All keys of the leaf that covers lo are below lo, and the next leaf begins with a key not above hi. */
  ghost predicate SkipsAt<N, R>(G: Graph<N, R>, n: N, lo: int, hi: int)
    requires n in G
  {
    && G[n].leaf && G[n].lo <= lo < G[n].hi
    && (forall x :: 0 <= x < |G[n].keys| ==> G[n].keys[x] < lo)
    && G[n].next.ToNode? && G[n].next.node in G
    && G[G[n].next.node].keys != [] && G[G[n].next.node].keys[0] <= hi
  }

  /** A scan of lo..hi gives up at a leaf whose successor has a key of the range. */
  ghost predicate Skips<N, R>(G: Graph<N, R>, lo: int, hi: int) {
    exists n :: n in G && SkipsAt(G, n, lo, hi)
  }

  /** Where the scan lands there is only one leaf, so it skips there or nowhere. */
  lemma SkipsIff<N, R>(G: Graph<N, R>, root: N, n: N, lo: int, hi: int)
    requires Shape(G, root) && n in G && G[n].leaf && G[n].lo <= lo < G[n].hi
    ensures Skips(G, lo, hi) <==> SkipsAt(G, n, lo, hi)
  {
    if Skips(G, lo, hi) {
      var m :| m in G && SkipsAt(G, m, lo, hi);
      assert Ok(G, root, n) && Ok(G, root, m);
      SameLevelUnique(G, root, n, m, lo);
    }
  }

  /** A first key of the next leaf that is not above hi lies in the range. */
  lemma SkippedInRange<N, R>(G: Graph<N, R>, root: N, M: map<int, R>, n: N, lo: int, hi: int) returns (k: int)
    requires Shape(G, root) && Holds(G, M) && n in G && SkipsAt(G, n, lo, hi)
    ensures k in M && lo <= k <= hi
  {
    var m := G[n].next.node;
    k := G[m].keys[0];
    assert Ok(G, root, n) && Ok(G, root, m);
    LeafDecides(G, root, M, m, k);
  }

  /** If the landing leaf has no key from lo on, a key of lo..hi shows in the first key of the next leaf. */
  lemma RangeIsSkipped<N, R>(G: Graph<N, R>, root: N, order: nat, M: map<int, R>, n: N, lo: int, hi: int, k: int)
    requires IsTree(G, root, order, M) && n in G && G[n].leaf && G[n].lo <= lo < G[n].hi
    requires (forall x :: 0 <= x < |G[n].keys| ==> G[n].keys[x] < lo) && k in M && lo <= k <= hi
    ensures SkipsAt(G, n, lo, hi)
  {
    assert Ok(G, root, n);
    KeysInRange(G, root, M);
    if k < G[n].hi { LeafDecides(G, root, M, n, k); }
    var m := G[n].next.node;
    assert Ok(G, root, m) && Filled(G, root, order, m);
    if k < G[m].hi { LeafDecides(G, root, M, m, k); }
  }

  /**
   What the scan returns is the range if and only if the scan does not give up too early. n is the leaf it lands on.
   */
  lemma RangeIsExactIff<N, R>(
    G: Graph<N, R>, root: N, order: nat, M: map<int, R>, n: N, lo: int, hi: int, ks: seq<int>)
    requires IsTree(G, root, order, M) && n in G && G[n].leaf && G[n].lo <= lo < G[n].hi
    requires if Lands(G, lo) then IsRange(M, lo, hi, ks) else ks == []
    ensures IsRange(M, lo, hi, ks) <==> !Skips(G, lo, hi)
  {
    hide Shape, Holds, AllFilled;
    SkipsIff(G, root, n, lo, hi);
    if SkipsAt(G, n, lo, hi) {
      NoLanding(G, root, n, lo);
      var k := SkippedInRange(G, root, M, n, lo, hi);
    } else if !Lands(G, lo) {
      forall k | lo <= k <= hi ensures k !in M {
        if k in M { RangeIsSkipped(G, root, order, M, n, lo, hi, k); }
      }
    }
  }

  /** Without landing the scan reports nothing, which is right exactly when there is nothing to report. */
  lemma NothingIsRangeIff<R>(M: map<int, R>, lo: int, hi: int)
    ensures IsRange(M, lo, hi, []) <==> forall k :: lo <= k <= hi ==> k !in M
  {}

  /** Sorted keys from lo on, all below hi, are at most hi - lo many; the j-th is at least lo + j. */
  lemma {:induction false} Spread(ks: seq<int>, lo: int, j: nat)
    requires Sorted(ks) && j < |ks| && ks[0] >= lo
    ensures ks[j] >= lo + j
  {
    if j > 0 { Spread(ks, lo, j - 1); }
  }

  method Emit(returnedKeys: array<int>, returnedPointers: array<Record?>, found: nat, key: int, pointer: Record?)
    requires found < returnedKeys.Length == returnedPointers.Length
    modifies returnedKeys, returnedPointers
    ensures returnedKeys[..found + 1] == old(returnedKeys[..found]) + [key]
    ensures returnedPointers[..found + 1] == old(returnedPointers[..found]) + [pointer]
  {
    returnedKeys[found] := key;
    returnedPointers[found] := pointer;
  }

  lemma KeysSpread(ks: seq<int>)
    requires Sorted(ks)
    ensures forall x :: 0 <= x < |ks| - 1 ==> ks[x] < ks[x + 1]
  {}

  lemma NextSlice(s: seq<int>, ks: seq<int>, i: nat, x: nat)
    requires i <= x < |ks|
    ensures s + ks[i..x] + [ks[x]] == s + ks[i..x + 1]
  {}

  lemma NextPointer(s: seq<Record?>, more: seq<Record?>, p: Record)
    ensures s + more + [p] == s + (more + [p])
  {}

  /** Appends the leaf's entries from i on, up to keyEnd. */
  method Collect(
    n: Node, i: nat, keyStart: int, keyEnd: int, returnedKeys: array<int>, returnedPointers: array<Record?>, found: nat)
    returns (numFound: nat, ghost j: nat, ghost more: seq<Record?>)
    requires n.Fits() && n.isLeaf && i <= n.numKeys && returnedKeys != n.keys
      && returnedKeys.Length == returnedPointers.Length
    requires Sorted(n.Value().keys) && forall x :: 0 <= x < n.numKeys ==> n.pointers[x].ToRecord?
    requires i < n.numKeys ==> n.keys[i] >= keyStart + found
    requires found <= returnedKeys.Length && returnedKeys.Length >= keyEnd - keyStart + 1
    modifies returnedKeys, returnedPointers
    ensures i <= j <= n.numKeys && numFound == found + (j - i) && numFound <= returnedKeys.Length
    ensures returnedKeys[..numFound] == old(returnedKeys[..found]) + n.Value().keys[i..j]
    ensures returnedPointers[..numFound] == old(returnedPointers[..found]) + more && |more| == j - i
    ensures forall x :: i <= x < j ==> more[x - i] == n.pointers[x].rec
    ensures forall x :: i <= x < j ==> n.Value().keys[x] <= keyEnd
    ensures j < n.numKeys ==> n.Value().keys[j] > keyEnd
  {
    numFound := found;
    j, more := i, [];
    var x := i;
    ghost var ks := n.Value().keys;
    KeysSpread(ks);
    hide Sorted, Node.Value, Node.Fits;
    while x < n.numKeys && n.keys[x] <= keyEnd
      invariant i <= x <= n.numKeys && x == j && numFound == found + (x - i) && numFound <= returnedKeys.Length
      invariant x < n.numKeys ==> n.keys[x] >= keyStart + numFound
      invariant returnedKeys[..numFound] == old(returnedKeys[..found]) + ks[i..x]
      invariant returnedPointers[..numFound] == old(returnedPointers[..found]) + more && |more| == x - i
      invariant forall y :: i <= y < x ==> more[y - i] == n.pointers[y].rec
      invariant forall y :: i <= y < x ==> ks[y] <= keyEnd
    {
      assert ks[x] == n.keys[x] && (x + 1 < n.numKeys ==> ks[x + 1] == n.keys[x + 1]);
      NextSlice(old(returnedKeys[..found]), ks, i, x);
      NextPointer(old(returnedPointers[..found]), more, n.pointers[x].rec);
      Emit(returnedKeys, returnedPointers, numFound, n.keys[x], n.pointers[x].rec);
      numFound := numFound + 1;
      more := more + [n.pointers[x].rec];
      x, j := x + 1, j + 1;
    }
  }

  /** ks lists the keys of M in lo..hi that are below bound, in order. */
  ghost predicate PartRange<R>(M: map<int, R>, lo: int, hi: int, bound: int, ks: seq<int>) {
    Sorted(ks) && forall k :: k in ks <==> k in M && lo <= k <= hi && k < bound
  }

  /** The pointers found lead to the records of the keys found. */
  ghost predicate Recorded(M: map<int, Record>, ks: seq<int>, ps: seq<Record?>) {
    |ps| == |ks| && forall x :: 0 <= x < |ks| ==> ks[x] in M && ps[x] == M[ks[x]]
  }

  lemma JoinRecords(
    v: Val<Node, Record>, M: map<int, Record>, i: nat, j: nat, ks: seq<int>, ps: seq<Record?>, more: seq<Record?>)
    requires Agrees(v, M) && i <= j <= |v.keys| && |more| == j - i && Recorded(M, ks, ps)
    requires forall x :: i <= x < j ==> v.ptrs[x].ToRecord? && v.ptrs[x].rec == more[x - i]
    ensures Recorded(M, ks + v.keys[i..j], ps + more)
  {}

  /** What is still to come of a leaf starts at the first key not below lo. */
  ghost predicate StartsAt<N, R>(v: Val<N, R>, i: nat, lo: int) {
    i <= |v.keys| && (forall x :: 0 <= x < i ==> v.keys[x] < lo) && (i < |v.keys| ==> v.keys[i] >= lo)
  }

  lemma StartParts<N, R>(v: Val<N, R>, i: nat, lo: int)
    requires StartsAt(v, i, lo)
    ensures i <= |v.keys| && (i < |v.keys| ==> v.keys[i] >= lo)
  {}

  /** Scanning one leaf extends the part of the range found so far by the leaf's interval. */
  lemma ScanLeaf<N, R>(
    G: Graph<N, R>, root: N, M: map<int, R>, n: N, lo: int, hi: int, ks: seq<int>, i: nat, j: nat)
    requires Shape(G, root) && Holds(G, M) && n in G && G[n].leaf
    requires PartRange(M, lo, hi, G[n].lo, ks) && i <= j <= |G[n].keys| && StartsAt(G[n], i, lo)
    requires forall x :: i <= x < j ==> G[n].keys[x] <= hi
    requires j < |G[n].keys| ==> G[n].keys[j] > hi
    ensures PartRange(M, lo, hi, G[n].hi, ks + G[n].keys[i..j])
  {
    assert Ok(G, root, n);
    var v := G[n];
    var more := v.keys[i..j];
    forall x | 0 <= x < |ks| ensures ks[x] < v.lo { assert ks[x] in ks; }
    forall k ensures k in ks + more <==> k in M && lo <= k <= hi && k < v.hi {
      if v.lo <= k < v.hi {
        LeafDecides(G, root, M, n, k);
        if k in v.keys {
          var x :| 0 <= x < |v.keys| && v.keys[x] == k;
          assert i <= x < j ==> more[x - i] == k;
        }
      }
    }
  }

  /** There is still room for the keys of the next leaf. */
  lemma RoomLeft<N, R>(G: Graph<N, R>, root: N, M: map<int, R>, n: N, lo: int, hi: int, ks: seq<int>, i: nat)
    requires Shape(G, root) && n in G && G[n].leaf && PartRange(M, lo, hi, G[n].lo, ks)
    requires i < |G[n].keys| && G[n].keys[i] >= lo
    ensures G[n].keys[i] >= lo + |ks|
  {
    assert Ok(G, root, n);
    if ks != [] {
      assert ks[0] in ks && ks[|ks| - 1] in ks;
      Spread(ks, lo, |ks| - 1);
    }
  }

  /**
   The scan of find_range: the keys in keyStart..keyEnd and their records, provided the landing leaf has a key
   to start from; in a tree, unless it skips the next leaf. The caller's arrays have keyEnd - keyStart + 1 slots, and
   that is enough.
   */
  method FindRange(
    order: nat, root: Node?, keyStart: Key, keyEnd: Key, returnedKeys: array<int>, returnedPointers: array<Record?>,
    ghost T: Graph<Node, Record>, ghost repr: set<object>, ghost M: map<int, Record>)
    returns (numFound: nat)
    requires if root == null then M == map[] else Stored(order, T, repr) && Shape(T, root) && Holds(T, M)
    requires returnedKeys !in repr && returnedPointers !in repr
    requires returnedKeys.Length == returnedPointers.Length >= keyEnd - keyStart + 1
    modifies returnedKeys, returnedPointers
    ensures numFound <= returnedKeys.Length && (numFound == 0 || numFound <= keyEnd - keyStart + 1)
    ensures Recorded(M, returnedKeys[..numFound], returnedPointers[..numFound])
    ensures if root != null && Lands(T, keyStart) then IsRange(M, keyStart, keyEnd, returnedKeys[..numFound])
            else numFound == 0
    ensures (root != null ==> IsTree(T, root, order, M)) ==>
      (IsRange(M, keyStart, keyEnd, returnedKeys[..numFound]) <==> root == null || !Skips(T, keyStart, keyEnd))
  {
    numFound := 0;
    var n := FindLeaf(order, root, keyStart, T, repr);
    if n == null { return; }
    StoredKeys(order, T, repr, n);
    var i := FirstAtLeast(n, keyStart);
    LandsIff(T, root, n, i, keyStart);
    hide Lands, Holds, Shape, Recorded, IsRange, Stored, Skips, IsTree;
    if i != n.numKeys {
      numFound := Scan(order, root, n, i, keyStart, keyEnd, returnedKeys, returnedPointers, T, repr, M);
    }
    if IsTree(T, root, order, M) {
      RangeIsExactIff(T, root, order, M, n, keyStart, keyEnd, returnedKeys[..numFound]);
    }
  }

  method FirstAtLeast(n: Node, keyStart: int) returns (i: nat)
    requires n.Fits()
    ensures StartsAt(n.Value(), i, keyStart)
  {
    i := 0;
    while i < n.numKeys && n.keys[i] < keyStart
      invariant i <= n.numKeys && forall x :: 0 <= x < i ==> n.Value().keys[x] < keyStart
    {
      i := i + 1;
    }
  }

  lemma LandsIff<N, R>(G: Graph<N, R>, root: N, n: N, i: nat, k: int)
    requires Shape(G, root) && n in G && G[n].leaf && G[n].lo <= k < G[n].hi && StartsAt(G[n], i, k)
    ensures Lands(G, k) <==> i < |G[n].keys|
  {
    if i == |G[n].keys| { NoLanding(G, root, n, k); }
  }

  lemma NoLanding<N, R>(G: Graph<N, R>, root: N, n: N, k: int)
    requires Shape(G, root) && n in G && G[n].leaf && G[n].lo <= k < G[n].hi
    requires forall x :: 0 <= x < |G[n].keys| ==> G[n].keys[x] < k
    ensures !Lands(G, k)
  {
    assert Ok(G, root, n);
    forall m | m in G && G[m].leaf && G[m].lo <= k < G[m].hi ensures m == n {
      assert Ok(G, root, m);
      SameLevelUnique(G, root, n, m, k);
    }
  }

  /** The loop over the leaf chain, from entry i of leaf first. */
  method Scan(
    order: nat, ghost root: Node, first: Node, i: nat, keyStart: int, keyEnd: int,
    returnedKeys: array<int>, returnedPointers: array<Record?>,
    ghost T: Graph<Node, Record>, ghost repr: set<object>, ghost M: map<int, Record>)
    returns (numFound: nat)
    requires Stored(order, T, repr) && Shape(T, root) && Holds(T, M)
    requires first in T && T[first].leaf && T[first].lo <= keyStart < T[first].hi && keyStart < KEY_LIMIT
    requires StartsAt(T[first], i, keyStart)
    requires returnedKeys !in repr && returnedPointers !in repr
    requires returnedKeys.Length == returnedPointers.Length >= keyEnd - keyStart + 1
    modifies returnedKeys, returnedPointers
    ensures numFound <= returnedKeys.Length && (numFound == 0 || numFound <= keyEnd - keyStart + 1)
    ensures Recorded(M, returnedKeys[..numFound], returnedPointers[..numFound])
    ensures IsRange(M, keyStart, keyEnd, returnedKeys[..numFound])
  {
    numFound := 0;
    var n: Node? := first;
    var at: nat := i;
    ScanStart(M, keyStart, keyEnd, T[first].lo, returnedKeys[..0], returnedPointers[..0]);
    hide Shape, Holds, Recorded, PartRange, IsRange, Stored;
    while n != null
      invariant n != null ==>
        n in T && T[n].leaf && T[n].hi > keyStart && T[n].lo <= KEY_LIMIT && StartsAt(T[n], at, keyStart)
      invariant numFound <= returnedKeys.Length
      invariant PartRange(M, keyStart, keyEnd, if n == null then KEY_LIMIT else T[n].lo, returnedKeys[..numFound])
      invariant Recorded(M, returnedKeys[..numFound], returnedPointers[..numFound])
      invariant Stored(order, T, repr)
      decreases if n == null then 0 else 1 + KEY_LIMIT - T[n].lo
    {
      numFound := ScanOne(order, root, n, at, keyStart, keyEnd, returnedKeys, returnedPointers, numFound, T, repr, M);
      n := FollowNext(order, n, root, T, repr);
      at := 0;
    }
    WholeRange(T, root, M, keyStart, keyEnd, returnedKeys[..numFound]);
  }

  lemma ScanStart(M: map<int, Record>, lo: int, hi: int, bound: int, ks: seq<int>, ps: seq<Record?>)
    requires bound <= lo && ks == [] && ps == []
    ensures PartRange(M, lo, hi, bound, ks) && Recorded(M, ks, ps)
  {}

  /** The last pointer of a leaf leads to the leaf whose interval comes next. */
  method FollowNext(order: nat, n: Node, ghost root: Node, ghost T: Graph<Node, Record>, ghost repr: set<object>)
    returns (m: Node?)
    requires Stored(order, T, repr) && Shape(T, root) && n in T && T[n].leaf
    ensures if m == null then T[n].hi == KEY_LIMIT else
      m in T && T[m].leaf && T[n].lo < T[n].hi == T[m].lo < T[m].hi <= KEY_LIMIT && StartsAt(T[m], 0, T[n].hi)
  {
    StoredKeys(order, T, repr, n);
    assert StoredAt(n, order, T[n]);
    assert Ok(T, root, n);
    if T[n].next.ToNode? { assert Ok(T, root, T[n].next.node); }
    m := if n.pointers[order - 1].ToNode? then n.pointers[order - 1].node else null;
  }

  lemma WholeRange<N, R>(G: Graph<N, R>, root: N, M: map<int, R>, lo: int, hi: int, ks: seq<int>)
    requires Shape(G, root) && Holds(G, M) && PartRange(M, lo, hi, KEY_LIMIT, ks)
    ensures IsRange(M, lo, hi, ks)
    ensures |ks| == 0 || |ks| <= hi - lo + 1
  {
    KeysInRange(G, root, M);
    if ks != [] {
      assert ks[0] in ks && ks[|ks| - 1] in ks;
      Spread(ks, lo, |ks| - 1);
    }
  }

  /** One leaf of the scan. */
  method ScanOne(
    order: nat, ghost root: Node, n: Node, i: nat, keyStart: int, keyEnd: int,
    returnedKeys: array<int>, returnedPointers: array<Record?>, found: nat,
    ghost T: Graph<Node, Record>, ghost repr: set<object>, ghost M: map<int, Record>)
    returns (numFound: nat)
    requires Stored(order, T, repr) && Shape(T, root) && Holds(T, M) && n in T && T[n].leaf
    requires StartsAt(T[n], i, keyStart)
    requires returnedKeys !in repr && returnedPointers !in repr && found <= returnedKeys.Length
    requires returnedKeys.Length == returnedPointers.Length >= keyEnd - keyStart + 1
    requires PartRange(M, keyStart, keyEnd, T[n].lo, returnedKeys[..found])
    requires Recorded(M, returnedKeys[..found], returnedPointers[..found])
    modifies returnedKeys, returnedPointers
    ensures Stored(order, T, repr) && numFound <= returnedKeys.Length
    ensures PartRange(M, keyStart, keyEnd, T[n].hi, returnedKeys[..numFound])
    ensures Recorded(M, returnedKeys[..numFound], returnedPointers[..numFound])
  {
    hide *;
    StoredKeys(order, T, repr, n);
    StoredIn(order, T, repr, n);
    LeafContents(T, root, M, n);
    StartParts(T[n], i, keyStart);
    ghost var ks, ps := returnedKeys[..found], returnedPointers[..found];
    if i < n.numKeys { RoomLeft(T, root, M, n, keyStart, keyEnd, ks, i); }
    ghost var j, more;
    AgreesRecords(T[n], M);
    assert forall x :: 0 <= x < n.numKeys ==> n.pointers[x].ToRecord?;
    numFound, j, more := Collect(n, i, keyStart, keyEnd, returnedKeys, returnedPointers, found);
    ScanLeaf(T, root, M, n, keyStart, keyEnd, ks, i, j);
    JoinRecords(T[n], M, i, j, ks, ps, more);
  }

  lemma AgreesRecords<N, R>(v: Val<N, R>, M: map<int, R>)
    requires Agrees(v, M)
    ensures |v.ptrs| == |v.keys| && forall x :: 0 <= x < |v.ptrs| ==> v.ptrs[x].ToRecord?
  {}

  // ----- A tree in which the scan misses a key -----

  /** A tree of order 3: the root has the key 5, its leaves have the keys 1 and 5. */
  function SmallTree<N, R>(root: N, a: N, b: N, x: R, y: R): (G: Graph<N, R>) {
    map[root := Val(false, [5], [ToNode(a), ToNode(b)], NullPtr, NullPtr, 1, MIN_KEY, KEY_LIMIT),
        a := Val(true, [1], [ToRecord(x)], ToNode(b), ToNode(root), 0, MIN_KEY, 5),
        b := Val(true, [5], [ToRecord(y)], NullPtr, ToNode(root), 0, 5, KEY_LIMIT)]
  }

  lemma SmallShape<N, R>(root: N, a: N, b: N, x: R, y: R)
    requires root != a && root != b && a != b
    ensures Shape(SmallTree(root, a, b, x, y), root)
  {
    var G := SmallTree(root, a, b, x, y);
    assert G[root].ptrs[0] == ToNode(a) && G[root].ptrs[1] == ToNode(b);
    assert ChildOk(G, root, G[root], 0) && ChildOk(G, root, G[root], 1);
    assert Ok(G, root, root) && Ok(G, root, a) && Ok(G, root, b);
  }

  /** A scan from 2 to 5 lands on the leaf with the key 1, and an empty result is not the range. */
  lemma RangeCanMissKeys<N, R>(root: N, a: N, b: N, x: R, y: R)
    requires root != a && root != b && a != b
    ensures var G, M := SmallTree(root, a, b, x, y), map[1 := x, 5 := y];
      IsTree(G, root, 3, M) && 5 in M && !Lands(G, 2) && Skips(G, 2, 5) && !IsRange(M, 2, 5, [])
  {
    hide Shape;
    var G, M := SmallTree(root, a, b, x, y), map[1 := x, 5 := y];
    SmallShape(root, a, b, x, y);
    assert G[a].keys[0] == 1 && G[b].keys[0] == 5;
    assert Stores(G, a, 1) && Stores(G, b, 5);
    NothingIsRangeIff(M, 2, 5);
    assert SkipsAt(G, a, 2, 5);
  }

  method MakeLeaf(key: int, record: Record, next: Pointer, lo: int, hi: int) returns (n: Node)
    ensures fresh(n) && fresh(n.keys) && fresh(n.pointers) && n.Fits() && n.keys.Length == 2 && n.pointers.Length == 3
    ensures n.level == 0 && n.Value() == Val(true, [key], [ToRecord(record)], next, NullPtr, 0, lo, hi)
  {
    n := new Node(3, true);
    n.keys[0], n.pointers[0], n.pointers[2] := key, ToRecord(record), next;
    n.numKeys, n.level, n.lo, n.hi := 1, 0, lo, hi;
  }

  lemma SmallStored(root: Node, a: Node, b: Node, x: Record, y: Record, repr: set<object>)
    requires root != a && root != b && a != b
    requires root.keys != a.keys && root.keys != b.keys && a.keys != b.keys
    requires root.pointers != a.pointers && root.pointers != b.pointers && a.pointers != b.pointers
    requires repr == {root, root.keys, root.pointers, a, a.keys, a.pointers, b, b.keys, b.pointers}
    requires root.Fits() && a.Fits() && b.Fits() && root.keys.Length == a.keys.Length == b.keys.Length == 2
    requires root.Value() == Val(false, [5], [ToNode(a), ToNode(b)], NullPtr, NullPtr, 1, MIN_KEY, KEY_LIMIT)
    requires a.Value() == Val(true, [1], [ToRecord(x)], ToNode(b), ToNode(root), 0, MIN_KEY, 5)
    requires b.Value() == Val(true, [5], [ToRecord(y)], NullPtr, ToNode(root), 0, 5, KEY_LIMIT)
    ensures Stored(3, SmallTree(root, a, b, x, y), repr)
  {
    var T := SmallTree(root, a, b, x, y);
    assert StoredAt(root, 3, T[root]) && StoredAt(a, 3, T[a]) && StoredAt(b, 3, T[b]);
    hide StoredAt;
  }

  /** Such a tree in the heap. */
  method MakeSmallTree() returns (
      root: Node, ghost T: Graph<Node, Record>, ghost repr: set<object>, ghost M: map<int, Record>)
    ensures Stored(3, T, repr) && IsTree(T, root, 3, M) && 5 in M && !Lands(T, 2) && fresh(repr)
  {
    hide Stored, StoredAt, IsTree, Lands, IsRange, Shape, SmallTree, Node.Value;
    var x := new Record(10);
    var y := new Record(50);
    var b := MakeLeaf(5, y, NullPtr, 5, KEY_LIMIT);
    var a := MakeLeaf(1, x, ToNode(b), MIN_KEY, 5);
    root := MakeRoot(3, a, 5, b);
    T, M := SmallTree(root, a, b, x, y), map[1 := x, 5 := y];
    repr := {root, root.keys, root.pointers, a, a.keys, a.pointers, b, b.keys, b.pointers};
    RangeCanMissKeys(root, a, b, x, y);
    SmallStored(root, a, b, x, y, repr);
  }

  lemma TreeParts<N, R>(T: Graph<N, R>, root: N, order: nat, M: map<int, R>)
    requires IsTree(T, root, order, M)
    ensures Shape(T, root) && Holds(T, M)
  {}

  /** A scan from 2 to 5 of this tree reports nothing, although its map has the key 5. */
  method MissedKey() returns (
      root: Node, numFound: nat, ghost T: Graph<Node, Record>, ghost repr: set<object>, ghost M: map<int, Record>)
    ensures Stored(3, T, repr) && IsTree(T, root, 3, M) && 5 in M && numFound == 0
  {
    var keyStart: Key, keyEnd: Key := 2, 5;
    hide *;
    root, T, repr, M := MakeSmallTree();
    TreeParts(T, root, 3, M);
    numFound := ScanSmall(root, keyStart, keyEnd, T, repr, M);
  }

  method ScanSmall(
    root: Node, keyStart: Key, keyEnd: Key,
    ghost T: Graph<Node, Record>, ghost repr: set<object>, ghost M: map<int, Record>)
    returns (numFound: nat)
    requires Stored(3, T, repr) && Shape(T, root) && Holds(T, M) && keyEnd - keyStart == 3 && !Lands(T, keyStart)
    ensures numFound == 0
  {
    hide *;
    var returnedKeys := new int[4];
    var returnedPointers := new Record?[4];
    numFound := FindRange(3, root, keyStart, keyEnd, returnedKeys, returnedPointers, T, repr, M);
  }
}
