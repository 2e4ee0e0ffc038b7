/**
 The pages of an on-disk tree, as values: when the pages of a file hold a graph, what rewriting or allocating a page
 does to that, and the facts about nodes and pages that the methods of the tree rest on.
 */
module DiskPages {
  import opened BPlusGraph
  import opened BPlusSplit
  import opened BPlusMap
  import opened BPlusInsertion
  import opened PageBytes
  import opened LeafLayout
  import opened LeafPage
  import opened InnerPage
  import opened DiskInsertion
  import opened TablePages
  import C = BufferCache
  import F = PageFile

  // ----- Pages against a graph -----

  ghost predicate NodeOn(p: Page, v: Node) {
    if v.leaf then LeafOn(p, v.keys, Values(v.ptrs), NumberOf(v.parent), NumberOf(v.next))
    else InnerOn(p, v.keys, Children(v.ptrs), NumberOf(v.parent))
  }

  ghost predicate On(pages: F.Pages, T: DiskGraph) {
    forall n {:trigger T[n]} :: n in T ==> 1 <= n < C.PAGE_LIMIT && n in pages && NodeOn(pages[n], T[n])
  }

  /** The pages of T are allocated in the file and hold T; all of them can be read through the buffer. */
  ghost predicate TreeOn(f: F.File, T: DiskGraph) {
    F.ValidFile(f) && F.Count(f) <= C.PAGE_LIMIT && T.Keys <= f.used && On(f.pages, T)
  }

  /** The pages the file has to give, if need be after doubling once. */
  ghost function Space(f: F.File): int {
    if 0 in f.pages then |f.free| + (if 2 * F.Count(f) <= C.PAGE_LIMIT then F.Count(f) else 0) else 0
  }

  /** The root page number in the file's header. */
  ghost function RootNumber(f: F.File): nat {
    if 0 in f.pages then RootPage(f.pages[0]) else 0
  }

  lemma KindOf(p: Page, v: Node)
    requires NodeOn(p, v)
    ensures v.leaf <==> IsLeaf(p) != 0
    ensures ParentOf(p) == NumberOf(v.parent) && KeyCount(p) == |v.keys|
    ensures v.leaf ==> LeafOn(p, v.keys, Values(v.ptrs), NumberOf(v.parent), NumberOf(v.next))
    ensures v.leaf ==> FreeSpace(p) == MAX_FREE_SPACE - Used(Values(v.ptrs)) && |v.ptrs| == |v.keys|
    ensures !v.leaf ==> InnerOn(p, v.keys, Children(v.ptrs), NumberOf(v.parent))
  {}

  lemma ParentChanged(p: Page, v: Node, parent: nat)
    requires NodeOn(p, v) && parent < U64
    ensures NodeOn(PutNumber(p, 0, 8, parent), v.(parent := ToNode(parent)))
  {
    if v.leaf {
      LeafWithParent(p, v.keys, Values(v.ptrs), NumberOf(v.parent), NumberOf(v.next), parent);
    } else {
      InnerWithParent(p, v.keys, Children(v.ptrs), NumberOf(v.parent), parent);
    }
  }

  lemma NodeAt(f: F.File, T: DiskGraph, n: nat)
    requires TreeOn(f, T) && n in T
    ensures 1 <= n < C.PAGE_LIMIT < U64 && n in f.pages && n in f.used && NodeOn(f.pages[n], T[n])
    ensures F.ValidFile(f) && 0 in f.pages
  {
    assert T[n] == T[n];
  }

  lemma TreeParts(f: F.File, T: DiskGraph)
    requires TreeOn(f, T)
    ensures F.ValidFile(f) && On(f.pages, T) && T.Keys <= f.used && 0 in f.pages && 0 !in f.used
    ensures RootNumber(f) == RootPage(f.pages[0])
    ensures forall p :: p in f.used ==> p in f.pages && 1 <= p < C.PAGE_LIMIT < U64
  {}

  // ----- Rewriting and allocating a page -----

  /** A page of the tree is rewritten. */
  lemma StoreStep(f: F.File, T: DiskGraph, n: nat, p: Page, v: Node)
    requires TreeOn(f, T) && n in f.used && NodeOn(p, v)
    ensures MayWrite(f, n, p)
    ensures var g := Rewritten(f, n, p);
      TreeOn(g, T[n := v]) && Alike(f, g)
  {
    hide NodeOn, F.ValidFile, RootPage, PageCount, FreeHead;
    TreeParts(f, T);
    F.RewriteStep(f, n, p);
    assert On(f.pages[n := p], T[n := v]) by {
      assert forall m :: m in T ==> 1 <= m < C.PAGE_LIMIT && m in f.pages && NodeOn(f.pages[m], T[m]);
    }
  }

  /** The root page number in the header is rewritten. */
  lemma RootStep(f: F.File, T: DiskGraph, r: nat)
    requires TreeOn(f, T) && r < U64
    ensures 0 in f.pages && MayWrite(f, 0, SetRootPage(f.pages[0], r))
    ensures var g := Rewritten(f, 0, SetRootPage(f.pages[0], r));
      TreeOn(g, T) && RootNumber(g) == r && g.used == f.used
  {
    hide NodeOn, F.ValidFile, FreeHead, PageCount, RootPage, SetRootPage;
    TreeParts(f, T);
    HeaderFields(f.pages[0], r);
    F.RewriteStep(f, 0, SetRootPage(f.pages[0], r));
    assert On(f.pages[0 := SetRootPage(f.pages[0], r)], T) by {
      assert forall m :: m in T ==> 1 <= m < C.PAGE_LIMIT && m in f.pages && NodeOn(f.pages[m], T[m]);
    }
  }

  lemma FitsStep(f: F.File, T: DiskGraph)
    requires TreeOn(f, T) && Space(f) >= 1
    ensures C.FitsAlloc(f)
  {}

  /** A page is allocated: it is none of the tree's, and one page of room is gone. */
  lemma AllocStep(f: F.File, g: F.File, p: nat, T: DiskGraph)
    requires TreeOn(f, T) && Space(f) >= 1 && Allocated(f, g, p)
    ensures TreeOn(g, T) && Space(g) >= Space(f) - 1 && p !in T && p in g.used && 1 <= p < C.PAGE_LIMIT && p in g.pages
    ensures g.used == f.used + {p} && p !in f.used && RootNumber(g) == RootNumber(f)
  {
    hide NodeOn, RootPage, PageCount;
    TreeParts(f, T);
    assert On(g.pages, T) by {
      assert forall m :: m in T ==> 1 <= m < C.PAGE_LIMIT && m in f.pages && NodeOn(f.pages[m], T[m]);
    }
  }

  lemma AllocKeeps(f: F.File, g: F.File, p: nat)
    requires Allocated(f, g, p)
    ensures forall q :: q in f.pages && q != 0 ==> q in g.pages && g.pages[q] == f.pages[q]
  {}

  /** The header is the same, the same pages are allocated, and as many can be. */
  ghost predicate Alike(f: F.File, g: F.File) {
    && 0 in f.pages && 0 in g.pages && g.pages[0] == f.pages[0]
    && g.used == f.used && g.pages.Keys == f.pages.Keys && Space(g) == Space(f)
  }

  lemma AlikeReflexive(f: F.File, T: DiskGraph)
    requires TreeOn(f, T)
    ensures Alike(f, f)
  {}

  lemma AlikeTrans(f: F.File, g: F.File, h: F.File)
    requires Alike(f, g) && Alike(g, h)
    ensures Alike(f, h)
  {}

  lemma AlikeParts(f: F.File, g: F.File)
    requires Alike(f, g)
    ensures 0 in f.pages && 0 in g.pages && g.pages[0] == f.pages[0] && RootNumber(g) == RootNumber(f)
    ensures g.used == f.used && g.pages.Keys == f.pages.Keys && Space(g) == Space(f)
  {}

  // ----- Pages that are lost -----

  /** The allocated pages that are not the tree's. */
  ghost function Stray(f: F.File, T: DiskGraph): set<nat> {
    f.used - T.Keys
  }

  /** A page that is allocated and becomes the tree's is not lost. */
  lemma StraySame(f: F.File, T: DiskGraph, g: F.File, T': DiskGraph, n: nat)
    requires g.used == f.used + {n} && n !in f.used && T'.Keys == T.Keys + {n}
    ensures Stray(g, T') == Stray(f, T)
  {}

  lemma StrayAlike(f: F.File, T: DiskGraph, g: F.File, T': DiskGraph)
    requires g.used == f.used && T'.Keys == T.Keys
    ensures Stray(g, T') == Stray(f, T)
  {}

  lemma DividedKeys(T: DiskGraph, n: nat, v: Node, s: nat, right: nat)
    requires n in T && Divisible(v, s)
    ensures DividedGraph(T, n, v, s, right).Keys == T.Keys + {right}
    ensures right in DividedGraph(T, n, v, s, right)
    ensures Adopted(DividedGraph(T, n, v, s, right), right).Keys == T.Keys + {right}
  {}

  lemma LinkedKeys(T: DiskGraph, p: nat, idx: nat, key: int, right: nat)
    requires p in T && idx <= |T[p].keys| && idx < |T[p].ptrs|
    ensures Linked(T, p, idx, key, right).Keys == T.Keys
  {}

  lemma UnderRootKeys(T: DiskGraph, left: nat, key: int, right: nat, r: nat)
    requires left in T && right in T
    ensures UnderRoot(T, left, key, right, r).Keys == T.Keys + {r}
  {}

  // ----- Children and their parents -----

  ghost function WithParents(T: DiskGraph, cs: seq<nat>, x: nat): DiskGraph {
    map m | m in T :: if m in cs then T[m].(parent := ToNode(x)) else T[m]
  }

  /** The children cs have moved to x, and the nodes n and x have new contents. */
  ghost function Replaced(T: DiskGraph, cs: seq<nat>, x: nat, n: nat, v: Node, w: Node): DiskGraph {
    WithParents(T, cs, x)[n := v][x := w]
  }

  lemma ReplacedIs(T: DiskGraph, cs: seq<nat>, x: nat, n: nat, v: Node, w: Node)
    ensures Replaced(T, cs, x, n, v, w) == WithParents(T, cs, x)[n := v][x := w]
  {}

  lemma WithParentsNext(T: DiskGraph, cs: seq<nat>, x: nat, i: nat)
    requires i < |cs| && cs[i] in T
    ensures cs[i] in WithParents(T, cs[..i], x)
    ensures
      var W := WithParents(T, cs[..i], x);
      WithParents(T, cs[..i + 1], x) == W[cs[i] := W[cs[i]].(parent := ToNode(x))]
  {
    assert cs[..i + 1] == cs[..i] + [cs[i]];
  }

  lemma WithParentsEnds(T: DiskGraph, cs: seq<nat>, x: nat)
    ensures WithParents(T, cs[..0], x) == T && cs[..|cs|] == cs
  {
    assert cs[..0] == [];
  }

  lemma InnerParts(p: Page, keys: seq<int>, cs: seq<nat>, parent: nat)
    requires InnerOn(p, keys, cs, parent)
    ensures KeyCount(p) == |keys| && |cs| == |keys| + 1 && |keys| <= MAX_KEY_NUMBER
    ensures forall i :: 0 <= i < |cs| ==> ChildAt(p, i) == cs[i]
  {}

  // ----- Internal pages -----

  lemma UnderRootIs(T: DiskGraph, left: nat, key: int, right: nat, r: nat)
    requires left in T && right in T && left != right
    ensures
      var T1 := T[left := T[left].(parent := ToNode(r))];
      var T2 := T1[right := T1[right].(parent := ToNode(r))];
      UnderRoot(T, left, key, right, r)
        == T2[r := Val(false, [key], [ToNode(left), ToNode(right)], NullPtr, NullPtr,
                       T[left].level + 1, MIN_KEY, KEY_LIMIT)]
  {}

  lemma KeyIsLong(key: int)
    requires MIN_KEY <= key < KEY_LIMIT
    ensures -I64 <= key < I64
  {}

  lemma RootOn(p: Page, left: nat, key: int, right: nat, v: Node)
    requires InnerOn(p, [key], [left, right], 0)
    requires !v.leaf && v.keys == [key] && v.ptrs == [ToNode(left), ToNode(right)] && v.parent == NullPtr
    ensures NodeOn(p, v)
  {
    assert Children(v.ptrs) == [left, right];
  }

  lemma LinkedOn(p: Page, w: Node, idx: nat, key: int, right: nat)
    requires !w.leaf && |w.ptrs| == |w.keys| + 1 && idx <= |w.keys|
    requires InnerOn(p, Ins(w.keys, idx, key), Ins(Children(w.ptrs), idx + 1, right), NumberOf(w.parent))
    ensures NodeOn(p, LinkedVal(w, idx, key, right))
  {
    ChildrenIns(w.ptrs, idx + 1, right);
  }

  lemma LinkedIs(T: DiskGraph, p: nat, idx: nat, key: int, right: nat)
    requires p in T && idx <= |T[p].keys| && idx < |T[p].ptrs|
    ensures Linked(T, p, idx, key, right) == T[p := LinkedVal(T[p], idx, key, right)]
  {}

  /** Both halves of a full internal page that takes in one more pair, and the children of the right one. */
  lemma InnerHalvesOn(p: Page, q: Page, w: Node, idx: nat, key: int, right: nat, newNumber: nat)
    requires !w.leaf && |w.ptrs| == |w.keys| + 1 && |w.keys| == MAX_KEY_NUMBER && idx <= |w.keys|
    requires
      var ks, ds := Ins(w.keys, idx, key), Ins(Children(w.ptrs), idx + 1, right);
      && InnerOn(p, ks[..LEAST_KEYS], ds[..LEAST_KEYS + 1], NumberOf(w.parent))
      && InnerOn(q, ks[LEAST_KEYS + 1..], ds[LEAST_KEYS + 1..], NumberOf(w.parent))
    ensures
      var v := LinkedVal(w, idx, key, right);
      && Divisible(v, LEAST_KEYS) && !v.leaf && v.keys == Ins(w.keys, idx, key)
      && NodeOn(p, LeftHalf(v, LEAST_KEYS, newNumber)) && NodeOn(q, RightHalf(v, LEAST_KEYS))
  {
    var v := LinkedVal(w, idx, key, right);
    ChildrenIns(w.ptrs, idx + 1, right);
    ChildrenParts(v.ptrs, LEAST_KEYS + 1);
  }

  /** Letting the children move before the halves are written comes to the same as letting them move afterwards. */
  lemma AdoptionOrder(T: DiskGraph, n: nat, v: Node, s: nat, right: nat, cs: seq<nat>)
    requires n in T && right !in T && Divisible(v, s) && !v.leaf && cs == Children(RightHalf(v, s).ptrs)
    requires forall p :: p in RightHalf(v, s).ptrs ==> p.ToNode?
    requires n !in cs && right !in cs
    ensures
      WithParents(T, cs, right)[n := LeftHalf(v, s, right)][right := RightHalf(v, s)]
        == Adopted(DividedGraph(T, n, v, s, right), right)
  {
    hide LeftHalf, RightHalf;
    var A := WithParents(T, cs, right)[n := LeftHalf(v, s, right)][right := RightHalf(v, s)];
    var B := Adopted(DividedGraph(T, n, v, s, right), right);
    var ptrs := RightHalf(v, s).ptrs;
    assert A.Keys == B.Keys;
    forall m: nat ensures m in cs <==> ToNode(m) in ptrs {
      if m in cs {
        var i :| 0 <= i < |cs| && cs[i] == m;
        assert ptrs[i] in ptrs;
      }
      if ToNode(m) in ptrs {
        var i :| 0 <= i < |ptrs| && ptrs[i] == ToNode(m);
        assert cs[i] == m;
      }
    }
    forall m | m in B ensures A[m] == B[m] {}
  }

  /** The children that move are pages of the tree, and neither of the halves is among them. */
  lemma MovedChildren(T: DiskGraph, idx: nat, key: int, x: nat, G: DiskGraph, root: nat, n: nat, right: nat)
    requires n in T && idx <= |T[n].keys| && idx < |T[n].ptrs| && G == Linked(T, n, idx, key, x)
    requires Shape(G, root) && right !in T && !T[n].leaf && |T[n].keys| == MAX_KEY_NUMBER
    ensures Divisible(LinkedVal(T[n], idx, key, x), LEAST_KEYS) && !LinkedVal(T[n], idx, key, x).leaf
    ensures !RightHalf(LinkedVal(T[n], idx, key, x), LEAST_KEYS).leaf
    ensures
      var w := RightHalf(LinkedVal(T[n], idx, key, x), LEAST_KEYS);
      var cs := Children(w.ptrs);
      && (forall p :: p in w.ptrs ==> p.ToNode?)
      && (forall i :: 0 <= i < |cs| ==> cs[i] in T) && n !in cs && right !in cs
  {
    assert Ok(G, root, n);
    var v := G[n];
    var w := RightHalf(LinkedVal(T[n], idx, key, x), LEAST_KEYS);
    var cs := Children(w.ptrs);
    forall i | 0 <= i < |w.ptrs| ensures w.ptrs[i].ToNode? && cs[i] in T && cs[i] != n {
      assert w.ptrs[i] == v.ptrs[LEAST_KEYS + 1 + i];
      assert ChildOk(G, n, v, LEAST_KEYS + 1 + i);
    }
  }

  lemma LeastIs()
    ensures 0 <= LEAST_KEYS == SPLIT - 1 < MAX_KEY_NUMBER == 248
  {}

  lemma DividedHas(T: DiskGraph, n: nat, v: Node, s: nat, right: nat)
    requires Divisible(v, s)
    ensures right in DividedGraph(T, n, v, s, right)
  {}

  lemma SeparatorIs(G: DiskGraph, root: nat, T: DiskGraph, n: nat, idx: nat, key: int, right: nat)
    requires n in T && idx <= |T[n].keys| && idx < |T[n].ptrs| && G == Linked(T, n, idx, key, right)
    ensures n in G && G[n] == LinkedVal(T[n], idx, key, right) && |G[n].keys| == |T[n].keys| + 1
  {}

  lemma DividingParts(G: DiskGraph, root: nat, M: map<int, Value>, n: nat, s: nat, right: nat, T: DiskGraph)
    requires Dividing(G, root, M, n, s, right, T)
    ensures Shape(G, root) && n in G && right !in G && Splittable(G[n], s) && T == Halves(G, n, s, right)
  {}

  lemma KeyInRange(G: DiskGraph, root: nat, n: nat, s: nat)
    requires Shape(G, root) && n in G && s < |G[n].keys|
    ensures MIN_KEY <= G[n].keys[s] < KEY_LIMIT
  {
    assert Ok(G, root, n);
  }

  lemma LeftIsChild(T: DiskGraph, p: nat, left: nat)
    requires p in T && ToNode(left) in T[p].ptrs
    ensures left in Children(T[p].ptrs)
  {
    var i :| 0 <= i < |T[p].ptrs| && T[p].ptrs[i] == ToNode(left);
    assert Children(T[p].ptrs)[i] == left;
  }

  lemma ChildPointer(T: DiskGraph, p: nat, left: nat, i: nat)
    requires p in T && i < |Children(T[p].ptrs)| && Children(T[p].ptrs)[i] == left != 0
    ensures i < |T[p].ptrs| && T[p].ptrs[i] == ToNode(left)
  {}

  /** The parent field is 0 exactly for a node without a parent. */
  lemma ParentNumber(f: F.File, T: DiskGraph, n: nat)
    requires TreeOn(f, T) && n in T && (T[n].parent.ToNode? ==> T[n].parent.node in T) && !T[n].parent.ToRecord?
    ensures NumberOf(T[n].parent) == 0 <==> T[n].parent.NullPtr?
    ensures T[n].parent.ToNode? ==> NumberOf(T[n].parent) == T[n].parent.node
  {
    hide NodeOn;
    if T[n].parent.ToNode? { NodeAt(f, T, T[n].parent.node); }
  }

  // ----- Leaves -----

  lemma InsertedOn(p: Page, w: Node, i: nat, key: int, value: Value)
    requires w.leaf && |w.ptrs| == |w.keys| && i <= |w.keys|
    requires LeafOn(p, Ins(w.keys, i, key), Ins(Values(w.ptrs), i, value), NumberOf(w.parent), NumberOf(w.next))
    ensures NodeOn(p, InsertVal(w, i, key, value))
  {
    ValuesIns(w.ptrs, i, value);
  }

  lemma SlotBound(keys: seq<int>, i: nat, key: int)
    requires BPlusSplit.Slot(keys, i, key)
    ensures i <= |keys|
  {}

  /** Both halves of a leaf that has no room for one more entry. */
  lemma LeafHalvesOn(p: Page, q: Page, w: Node, i: nat, key: int, value: Value, newNumber: nat)
    requires w.leaf && |w.ptrs| == |w.keys| && i <= |w.keys| && Fits(Values(w.ptrs))
    requires MAX_FREE_SPACE < Used(Values(w.ptrs)) + SLOT_SIZE + |value|
    requires
      var ks, ws := Ins(w.keys, i, key), Ins(Values(w.ptrs), i, value);
      var s := SplitFrom(ws, 0);
      && s <= |ks|
      && LeafOn(p, ks[..s], ws[..s], NumberOf(w.parent), newNumber)
      && LeafOn(q, ks[s..], ws[s..], NumberOf(w.parent), NumberOf(w.next))
    ensures
      var v := InsertVal(w, i, key, value);
      var s := SplitFrom(Values(v.ptrs), 0);
      && Divisible(v, s) && NodeOn(p, LeftHalf(v, s, newNumber)) && NodeOn(q, RightHalf(v, s))
      && SlotAt(1) <= PAGE_SIZE && GetSlot(q, 0).key == v.keys[s]
  {
    var v := InsertVal(w, i, key, value);
    ValuesIns(w.ptrs, i, value);
    var s := SplitFrom(Values(v.ptrs), 0);
    InsDivides(Values(w.ptrs), i, value);
    ValuesParts(v.ptrs, s);
    EntryRead(q, v.keys[s..], Values(v.ptrs)[s..], NumberOf(w.parent), NumberOf(w.next), 0);
  }

  lemma SplitInside(w: Node, i: nat, key: int, value: Value)
    requires |w.ptrs| == |w.keys| && i <= |w.keys|
    ensures SplitFrom(Ins(Values(w.ptrs), i, value), 0) <= |Ins(w.keys, i, key)|
  {}

  lemma DividedIs(T: DiskGraph, n: nat, v: Node, s: nat, right: nat)
    requires Divisible(v, s)
    ensures DividedGraph(T, n, v, s, right) == T[n := LeftHalf(v, s, right)][right := RightHalf(v, s)]
  {}

  lemma ClimbRange(T: DiskGraph, root: nat, n: nat)
    ensures Climb(T, root, n) >= 0
  {}

  lemma DividedKey(T: DiskGraph, root: nat, n: nat, i: nat, key: int, value: Value, s: nat)
    requires n in T && i <= |T[n].keys| && i <= |T[n].ptrs| && Divisible(InsertVal(T[n], i, key, value), s)
    ensures s < |InsertVal(T[n], i, key, value).keys|
    ensures Climb(T[n := InsertVal(T[n], i, key, value)], root, n) == Climb(T, root, n)
  {}

  /** What insertion needs to know of the leaf that covers the key. */
  lemma LandingLeaf(T: DiskGraph, root: nat, M: map<int, Value>, n: nat, key: int)
    requires IsDiskTree(T, root, M) && n in T && T[n].leaf && T[n].lo <= key < T[n].hi && key !in M
    ensures Sorted(T[n].keys) && key !in T[n].keys && |T[n].ptrs| == |T[n].keys| && Fits(Values(T[n].ptrs))
  {
    hide Fits;
    LeafDecides(T, root, M, n, key);
    LeafContents(T, root, M, n);
    assert DiskFilled(T, root, n);
  }

  lemma RootIn(T: DiskGraph, root: nat)
    requires Shape(T, root)
    ensures root in T
  {}

  lemma InnerSorted(T: DiskGraph, root: nat, n: nat)
    requires Shape(T, root) && n in T
    ensures Sorted(T[n].keys)
  {
    assert Ok(T, root, n);
  }

  lemma ChildNumber(ptrs: seq<Pointer>, i: nat)
    requires i < |ptrs| && ptrs[i].ToNode?
    ensures i < |Children(ptrs)| && Children(ptrs)[i] == ptrs[i].node
  {}

  lemma DiskTreeParts(T: DiskGraph, root: nat, M: map<int, Value>)
    requires IsDiskTree(T, root, M)
    ensures Shape(T, root) && Holds(T, M) && root in T
  {}

  lemma ValueFound(w: Node, M: map<int, Value>, i: nat)
    requires Agrees(w, M) && i < |w.keys|
    ensures w.keys[i] in M && i < |Values(w.ptrs)| && Values(w.ptrs)[i] == M[w.keys[i]]
  {}

  lemma FirstOn(p: Page, key: int, value: Value, v: Node)
    requires LeafOn(p, [key], [value], 0, 0)
    requires v == Val(true, [key], [ToRecord(value)], NullPtr, NullPtr, 0, MIN_KEY, KEY_LIMIT)
    ensures NodeOn(p, v)
  {
    assert Values(v.ptrs) == [value];
  }

  lemma FreeSpaceIs(p: Page, v: Node, size: nat)
    requires NodeOn(p, v) && v.leaf
    ensures FreeSpace(p) >= SLOT_SIZE + size <==> Used(Values(v.ptrs)) + SLOT_SIZE + size <= MAX_FREE_SPACE
  {}

  lemma LeafClimb(T: DiskGraph, root: nat, n: nat)
    requires root in T
    ensures Climb(T, root, n) <= T[root].level
  {}

  lemma LimitIs()
    ensures 1 < C.PAGE_LIMIT < U64
  {}
}
