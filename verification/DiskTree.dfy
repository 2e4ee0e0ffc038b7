/**
 The on-disk tree of newbpt.cc: insertion and search over the pages of a table, which are read, written, allocated
 and unpinned through the buffer. T is the graph the pages hold, P the pins on entry: a function pins a handful of
 pages at a time, and when it is done the pins are what they were.
 */
module DiskTree {
  import opened Sequences
  import opened BPlusGraph
  import opened BPlusSplit
  import BPlusMap
  import opened BPlusInsertion
  import opened PageBytes
  import opened LeafLayout
  import opened LeafPage
  import opened InnerPage
  import opened DiskInsertion
  import opened DiskPages
  import opened TablePages
  import F = PageFile
  import C = BufferCache
  import Room = BufferRoom
  import BPlusSize
  import opened PageBuffer

  type Pins = multiset<C.Key>

  // ----- Reading and writing pages of the tree -----

  /** buffer_write_page of a page of the tree. */
  method StoreNode(buf: Buffer, table: int, n: nat, src: Page, ghost T: DiskGraph, ghost v: Node, ghost P: Pins)
    requires Ready(buf, P) && (table, n) in P && table in Seen(buf) && TreeOn(Seen(buf)[table], T)
    requires n in Seen(buf)[table].used && NodeOn(src, v)
    modifies buf.blocks, buf.frames
    ensures Ready(buf, P) && table in Seen(buf) && Seen(buf) == old(Seen(buf))[table := Seen(buf)[table]]
    ensures TreeOn(Seen(buf)[table], T[n := v]) && Alike(old(Seen(buf)[table]), Seen(buf)[table])
  {
    hide *;
    StoreStep(Seen(buf)[table], T, n, src, v);
    WriteFrom(buf, table, n, src, P);
  }

  /** buffer_alloc_page. */
  method AllocNode(buf: Buffer, table: int, ghost T: DiskGraph, ghost P: Pins) returns (n: nat)
    requires Ready(buf, P) && |P| + 3 <= buf.blocks.Length && table in Seen(buf)
    requires TreeOn(Seen(buf)[table], T) && Space(Seen(buf)[table]) >= 1
    modifies buf, buf.blocks, buf.frames, buf.files.Values
    ensures Ready(buf, P) && table in Seen(buf) && Seen(buf) == old(Seen(buf))[table := Seen(buf)[table]]
    ensures
      var f, g := old(Seen(buf)[table]), Seen(buf)[table];
      && TreeOn(g, T) && Space(g) >= Space(f) - 1 && g.used == f.used + {n} && n !in f.used
      && RootNumber(g) == RootNumber(f)
      && n !in T && n in g.used && n in g.pages && 1 <= n < C.PAGE_LIMIT
      && forall q :: q in f.pages && q != 0 ==> q in g.pages && g.pages[q] == f.pages[q]
  {
    hide *;
    ghost var f := Seen(buf)[table];
    FitsStep(f, T);
    n := TakePage(buf, table, P);
    AllocStep(f, Seen(buf)[table], n, T);
    AllocKeeps(f, Seen(buf)[table], n);
  }

  method SetParentField(page: array<Byte>, parent: nat)
    requires page.Length == PAGE_SIZE
    modifies page
    ensures page[..] == PutNumber(old(page[..]), 0, 8, parent)
  {
    SetNumber(page, 0, 8, parent);
  }

  method SetRootField(page: array<Byte>, r: nat)
    requires page.Length == PAGE_SIZE
    modifies page
    ensures page[..] == SetRootPage(old(page[..]), r)
  {
    SetNumber(page, 16, 8, r);
  }

  /** Rewrites the parent field of a page of the tree. */
  method SetParentOf(buf: Buffer, table: int, n: nat, parent: nat, ghost T: DiskGraph, ghost P: Pins)
    requires Ready(buf, P) && |P| + 2 <= buf.blocks.Length && table in Seen(buf) && TreeOn(Seen(buf)[table], T)
    requires n in T && 1 <= parent < U64
    modifies buf, buf.blocks, buf.frames, buf.files.Values
    ensures Ready(buf, P) && table in Seen(buf) && Seen(buf) == old(Seen(buf))[table := Seen(buf)[table]]
    ensures TreeOn(Seen(buf)[table], T[n := T[n].(parent := ToNode(parent))])
    ensures Alike(old(Seen(buf)[table]), Seen(buf)[table])
  {
    hide *;
    ghost var Q := P + multiset{(table, n)};
    NodeAt(Seen(buf)[table], T, n);
    var page := ReadInto(buf, table, n, P);
    ParentChanged(page[..], T[n], parent);
    SetParentField(page, parent);
    StoreNode(buf, table, n, page[..], T, T[n].(parent := ToNode(parent)), Q);
    Unpin(buf, table, n, P);
  }

  /** The children of a new internal page are made to name it as their parent. */
  method AdoptPages(
    buf: Buffer, table: int, newPage: Page, right: nat,
    ghost T: DiskGraph, ghost keys: seq<int>, ghost cs: seq<nat>, ghost parent: nat, ghost P: Pins)
    requires Ready(buf, P) && |P| + 2 <= buf.blocks.Length && table in Seen(buf) && TreeOn(Seen(buf)[table], T)
    requires InnerOn(newPage, keys, cs, parent)
    requires 1 <= right < U64 && forall i :: 0 <= i < |cs| ==> cs[i] in T
    modifies buf, buf.blocks, buf.frames, buf.files.Values
    ensures Ready(buf, P) && table in Seen(buf) && Seen(buf) == old(Seen(buf))[table := Seen(buf)[table]]
    ensures TreeOn(Seen(buf)[table], WithParents(T, cs, right)) && Alike(old(Seen(buf)[table]), Seen(buf)[table])
  {
    hide *;
    InnerParts(newPage, keys, cs, parent);
    WithParentsEnds(T, cs, right);
    ghost var s := Seen(buf);
    AlikeReflexive(s[table], T);
    for i := 0 to KeyCount(newPage) + 1
      invariant Ready(buf, P) && table in Seen(buf) && Seen(buf) == s[table := Seen(buf)[table]]
      invariant TreeOn(Seen(buf)[table], WithParents(T, cs[..i], right)) && Alike(s[table], Seen(buf)[table])
    {
      ghost var f := Seen(buf)[table];
      WithParentsNext(T, cs, right, i);
      SetParentOf(buf, table, ChildAt(newPage, i), right, WithParents(T, cs[..i], right), P);
      AlikeTrans(s[table], f, Seen(buf)[table]);
    }
  }

  // ----- Linking a new page -----

  /** db_insert_into_new_root. */
  method InsertIntoNewRoot(
    buf: Buffer, table: int, left: nat, key: int, right: nat, ghost T: DiskGraph, ghost P: Pins) returns (r: nat)
    requires Ready(buf, P) && |P| + 5 <= buf.blocks.Length && table in Seen(buf)
    requires TreeOn(Seen(buf)[table], T) && Space(Seen(buf)[table]) >= 1 && left in T && right in T && left != right
    requires MIN_KEY <= key < KEY_LIMIT
    modifies buf, buf.blocks, buf.frames, buf.files.Values
    ensures Ready(buf, P) && table in Seen(buf) && Seen(buf) == old(Seen(buf))[table := Seen(buf)[table]]
    ensures r !in T && TreeOn(Seen(buf)[table], UnderRoot(T, left, key, right, r)) && RootNumber(Seen(buf)[table]) == r
    ensures Stray(Seen(buf)[table], UnderRoot(T, left, key, right, r)) == old(Stray(Seen(buf)[table], T))
  {
    hide *;
    ghost var f0 := Seen(buf)[table];
    r := AllocNode(buf, table, T, P);
    ghost var Q := P + multiset{(table, r)} + multiset{(table, 0)} + multiset{(table, left)} + multiset{(table, right)};
    LimitIs();
    ghost var f := Seen(buf)[table];
    TreeParts(f, T);
    var leftPage, rightPage, rootPage, header := DraftRoot(buf, table, left, key, right, r, T, f, P);
    WriteRoot(buf, table, left, key, right, r, leftPage, rightPage, rootPage, header, T, Q);
    UnpinRoot(buf, table, left, right, r, P);
    UnderRootKeys(T, left, key, right, r);
    StraySame(f0, T, Seen(buf)[table], UnderRoot(T, left, key, right, r), r);
  }

  /** The four pages of a new root are read and edited. */
  method DraftRoot(
    buf: Buffer, table: int, left: nat, key: int, right: nat, r: nat,
    ghost T: DiskGraph, ghost f: F.File, ghost P: Pins)
    returns (leftPage: Page, rightPage: Page, rootPage: Page, header: Page)
    requires Ready(buf, P) && |P| + 5 <= buf.blocks.Length && table in Seen(buf) && f == Seen(buf)[table]
      && TreeOn(f, T)
    requires left in T && right in T && MIN_KEY <= key < KEY_LIMIT && r in f.pages && r < C.PAGE_LIMIT
    modifies buf, buf.blocks, buf.frames, buf.files.Values
    ensures Seen(buf) == old(Seen(buf))
    ensures Ready(
      buf, P + multiset{(table, r)} + multiset{(table, 0)} + multiset{(table, left)} + multiset{(table, right)})
    ensures 0 in f.pages && header == SetRootPage(f.pages[0], r) && InnerOn(rootPage, [key], [left, right], 0)
    ensures NodeOn(leftPage, T[left].(parent := ToNode(r))) && NodeOn(rightPage, T[right].(parent := ToNode(r)))
  {
    hide *;
    LimitIs();
    TreeParts(f, T);
    NodeAt(f, T, left);
    NodeAt(f, T, right);
    var rootArray, headerArray, leftArray, rightArray := ReadRoot(buf, table, left, right, r, f, P);
    EditRoot(rootArray, headerArray, leftArray, rightArray, left, key, right, r, T);
    leftPage, rightPage, rootPage, header := leftArray[..], rightArray[..], rootArray[..], headerArray[..];
  }

  /** The four pages of a new root are read. */
  method ReadRoot(buf: Buffer, table: int, left: nat, right: nat, r: nat, ghost f: F.File, ghost P: Pins)
    returns (rootPage: array<Byte>, headerPage: array<Byte>, leftPage: array<Byte>, rightPage: array<Byte>)
    requires Ready(buf, P) && |P| + 5 <= buf.blocks.Length && table in Seen(buf) && f == Seen(buf)[table]
    requires 0 in f.pages && left in f.pages && right in f.pages && r in f.pages
    requires 0 < left < C.PAGE_LIMIT && 0 < right < C.PAGE_LIMIT && r < C.PAGE_LIMIT
    modifies buf, buf.blocks, buf.frames, buf.files.Values
    ensures Seen(buf) == old(Seen(buf))
    ensures Ready(
      buf, P + multiset{(table, r)} + multiset{(table, 0)} + multiset{(table, left)} + multiset{(table, right)})
    ensures fresh(rootPage) && fresh(headerPage) && fresh(leftPage) && fresh(rightPage)
    ensures rootPage.Length == headerPage.Length == leftPage.Length == rightPage.Length == PAGE_SIZE
    ensures rootPage !in {headerPage, leftPage, rightPage} && headerPage !in {leftPage, rightPage}
      && leftPage != rightPage
    ensures headerPage[..] == f.pages[0] && leftPage[..] == f.pages[left] && rightPage[..] == f.pages[right]
  {
    hide *;
    ghost var Pr := P + multiset{(table, r)};
    ghost var Ph := Pr + multiset{(table, 0)};
    rootPage := ReadInto(buf, table, r, P);
    headerPage := ReadInto(buf, table, 0, Pr);
    leftPage := ReadInto(buf, table, left, Ph);
    rightPage := ReadInto(buf, table, right, Ph + multiset{(table, left)});
  }

  method EditRoot(
    rootPage: array<Byte>, headerPage: array<Byte>, leftPage: array<Byte>, rightPage: array<Byte>,
    left: nat, key: int, right: nat, r: nat, ghost T: DiskGraph)
    requires rootPage.Length == headerPage.Length == leftPage.Length == rightPage.Length == PAGE_SIZE
    requires rootPage !in {headerPage, leftPage, rightPage} && headerPage !in {leftPage, rightPage}
      && leftPage != rightPage
    requires left in T && right in T && NodeOn(leftPage[..], T[left]) && NodeOn(rightPage[..], T[right])
    requires MIN_KEY <= key < KEY_LIMIT && left < U64 && right < U64 && r < U64
    modifies rootPage, headerPage, leftPage, rightPage
    ensures headerPage[..] == SetRootPage(old(headerPage[..]), r) && InnerOn(rootPage[..], [key], [left, right], 0)
    ensures NodeOn(leftPage[..], T[left].(parent := ToNode(r))) && NodeOn(rightPage[..], T[right].(parent := ToNode(r)))
  {
    hide *;
    KeyIsLong(key);
    ParentChanged(leftPage[..], T[left], r);
    SetParentField(leftPage, r);
    ParentChanged(rightPage[..], T[right], r);
    SetParentField(rightPage, r);
    SetRootField(headerPage, r);
    MakeRootPage(rootPage, left, key, right);
  }

  /** The four pages of a new root are written. */
  method WriteRoot(
    buf: Buffer, table: int, left: nat, key: int, right: nat, r: nat,
    leftPage: Page, rightPage: Page, rootPage: Page, header: Page, ghost T: DiskGraph, ghost P: Pins)
    requires Ready(buf, P) && (table, r) in P && (table, 0) in P && (table, left) in P && (table, right) in P
    requires table in Seen(buf) && TreeOn(Seen(buf)[table], T) && left in T && right in T && left != right && r !in T
    requires r in Seen(buf)[table].used && r < U64
    requires 0 in Seen(buf)[table].pages && header == SetRootPage(Seen(buf)[table].pages[0], r)
    requires NodeOn(leftPage, T[left].(parent := ToNode(r))) && NodeOn(rightPage, T[right].(parent := ToNode(r)))
    requires InnerOn(rootPage, [key], [left, right], 0)
    modifies buf.blocks, buf.frames
    ensures Ready(buf, P) && table in Seen(buf) && Seen(buf) == old(Seen(buf))[table := Seen(buf)[table]]
    ensures TreeOn(Seen(buf)[table], UnderRoot(T, left, key, right, r)) && RootNumber(Seen(buf)[table]) == r
    ensures Seen(buf)[table].used == old(Seen(buf)[table].used)
  {
    hide *;
    ghost var f0 := Seen(buf)[table];
    TreeParts(f0, T);
    ghost var T1 := T[left := T[left].(parent := ToNode(r))];
    ghost var T2 := T1[right := T1[right].(parent := ToNode(r))];
    ghost var v: Node :=
      Val(false, [key], [ToNode(left), ToNode(right)], NullPtr, NullPtr, T[left].level + 1, MIN_KEY, KEY_LIMIT);
    RootOn(rootPage, left, key, right, v);
    StoreNode(buf, table, left, leftPage, T, T[left].(parent := ToNode(r)), P);
    ghost var f1 := Seen(buf)[table];
    AlikeParts(f0, f1);
    StoreNode(buf, table, right, rightPage, T1, T1[right].(parent := ToNode(r)), P);
    ghost var f2 := Seen(buf)[table];
    AlikeParts(f1, f2);
    StoreNode(buf, table, r, rootPage, T2, v, P);
    AlikeParts(f2, Seen(buf)[table]);
    StoreRoot(buf, table, r, header, T2[r := v], P);
    UnderRootIs(T, left, key, right, r);
  }

  method UnpinRoot(buf: Buffer, table: int, left: nat, right: nat, r: nat, ghost P: Pins)
    requires Ready(
      buf, P + multiset{(table, r)} + multiset{(table, 0)} + multiset{(table, left)} + multiset{(table, right)})
    modifies buf.blocks
    ensures Ready(buf, P) && Seen(buf) == old(Seen(buf))
  {
    hide *;
    ghost var Ph := P + multiset{(table, r)} + multiset{(table, 0)};
    assert Ph + multiset{(table, left)} + multiset{(table, right)}
      == Ph + multiset{(table, right)} + multiset{(table, left)};
    Unpin(buf, table, left, Ph + multiset{(table, right)});
    Unpin(buf, table, right, Ph);
    assert Ph == P + multiset{(table, 0)} + multiset{(table, r)};
    Unpin(buf, table, r, P + multiset{(table, 0)});
    Unpin(buf, table, 0, P);
  }

  /** buffer_write_page of the header, with another root page number. */
  method StoreRoot(buf: Buffer, table: int, r: nat, header: Page, ghost T: DiskGraph, ghost P: Pins)
    requires Ready(buf, P) && (table, 0) in P && table in Seen(buf) && TreeOn(Seen(buf)[table], T)
    requires r < U64 && 0 in Seen(buf)[table].pages && header == SetRootPage(Seen(buf)[table].pages[0], r)
    modifies buf.blocks, buf.frames
    ensures Ready(buf, P) && table in Seen(buf) && Seen(buf) == old(Seen(buf))[table := Seen(buf)[table]]
    ensures TreeOn(Seen(buf)[table], T) && RootNumber(Seen(buf)[table]) == r
    ensures Seen(buf)[table].used == old(Seen(buf)[table].used)
  {
    hide *;
    RootStep(Seen(buf)[table], T, r);
    WriteFrom(buf, table, 0, header, P);
  }

  /** db_insert_into_internal. */
  method InsertIntoInternal(
    buf: Buffer, table: int, parent: nat, leftIndex: nat, key: int, right: nat, ghost T: DiskGraph, ghost P: Pins)
    requires Ready(buf, P) && |P| + 2 <= buf.blocks.Length && table in Seen(buf) && TreeOn(Seen(buf)[table], T)
    requires parent in T && !T[parent].leaf && |T[parent].keys| < MAX_KEY_NUMBER
    requires |T[parent].ptrs| == |T[parent].keys| + 1 && leftIndex <= |T[parent].keys|
    requires MIN_KEY <= key < KEY_LIMIT && right < U64
    modifies buf, buf.blocks, buf.frames, buf.files.Values
    ensures Ready(buf, P) && table in Seen(buf) && Seen(buf) == old(Seen(buf))[table := Seen(buf)[table]]
    ensures TreeOn(Seen(buf)[table], Linked(T, parent, leftIndex, key, right))
    ensures Alike(old(Seen(buf)[table]), Seen(buf)[table])
  {
    hide *;
    ghost var f, w := Seen(buf)[table], T[parent];
    NodeAt(f, T, parent);
    KindOf(f.pages[parent], w);
    KeyIsLong(key);
    var page := ReadInto(buf, table, parent, P);
    InsertIntoInnerPage(page, leftIndex, key, right, w.keys, Children(w.ptrs), NumberOf(w.parent));
    LinkedOn(page[..], w, leftIndex, key, right);
    StoreNode(buf, table, parent, page[..], T, LinkedVal(w, leftIndex, key, right), P + multiset{(table, parent)});
    Unpin(buf, table, parent, P);
    LinkedIs(T, parent, leftIndex, key, right);
  }

  // ----- Splitting an internal page -----

  /** The pages of an inner split: the children that move, then the halves. */
  method DivideInner(
    buf: Buffer, table: int, parent: nat, leftIndex: nat, key: int, right: nat,
    ghost T: DiskGraph, ghost G: DiskGraph, ghost root: nat, ghost P: Pins)
    returns (newParent: nat, kPrime: int)
    requires Ready(buf, P) && |P| + 4 <= buf.blocks.Length && table in Seen(buf)
    requires TreeOn(Seen(buf)[table], T) && Space(Seen(buf)[table]) >= 1
    requires parent in T && !T[parent].leaf && |T[parent].keys| == MAX_KEY_NUMBER
    requires |T[parent].ptrs| == |T[parent].keys| + 1 && leftIndex <= |T[parent].keys|
    requires MIN_KEY <= key < KEY_LIMIT && right < U64
    requires G == Linked(T, parent, leftIndex, key, right) && Shape(G, root)
    modifies buf, buf.blocks, buf.frames, buf.files.Values
    ensures Ready(buf, P) && table in Seen(buf) && Seen(buf) == old(Seen(buf))[table := Seen(buf)[table]]
    ensures newParent !in T && Space(Seen(buf)[table]) >= old(Space(Seen(buf)[table])) - 1
    ensures newParent !in old(Seen(buf)[table].used)
    ensures Seen(buf)[table].used == old(Seen(buf)[table].used) + {newParent}
    ensures RootNumber(Seen(buf)[table]) == old(RootNumber(Seen(buf)[table]))
    ensures
      var v := LinkedVal(T[parent], leftIndex, key, right);
      && Divisible(v, LEAST_KEYS) && kPrime == v.keys[LEAST_KEYS]
      && newParent in DividedGraph(T, parent, v, LEAST_KEYS, newParent)
      && TreeOn(Seen(buf)[table], Adopted(DividedGraph(T, parent, v, LEAST_KEYS, newParent), newParent))
  {
    hide *;
    LeastIs();
    ghost var w, v := T[parent], LinkedVal(T[parent], leftIndex, key, right);
    var parentPage, newPage;
    newParent, kPrime, parentPage, newPage := DraftInner(buf, table, parent, leftIndex, key, right, T, P);
    LimitIs();
    MovedChildren(T, leftIndex, key, right, G, root, parent, newParent);
    ghost var L, R := LeftHalf(v, LEAST_KEYS, newParent), RightHalf(v, LEAST_KEYS);
    ghost var f, cs := Seen(buf)[table], Children(R.ptrs);
    WriteInner(buf, table, parent, newParent, parentPage, newPage, f, T, L, R, cs, P);
    AlikeParts(f, Seen(buf)[table]);
    ReplacedIs(T, cs, newParent, parent, L, R);
    AdoptionOrder(T, parent, v, LEAST_KEYS, newParent, cs);
    DividedHas(T, parent, v, LEAST_KEYS, newParent);
  }

  /** The pages of an inner split are read, allocated and edited. */
  method DraftInner(
    buf: Buffer, table: int, parent: nat, leftIndex: nat, key: int, right: nat, ghost T: DiskGraph, ghost P: Pins)
    returns (newParent: nat, kPrime: int, parentPage: Page, newPage: Page)
    requires Ready(buf, P) && |P| + 4 <= buf.blocks.Length && table in Seen(buf)
    requires TreeOn(Seen(buf)[table], T) && Space(Seen(buf)[table]) >= 1
    requires parent in T && !T[parent].leaf && |T[parent].keys| == MAX_KEY_NUMBER
    requires |T[parent].ptrs| == |T[parent].keys| + 1 && leftIndex <= |T[parent].keys|
    requires MIN_KEY <= key < KEY_LIMIT && right < U64
    modifies buf, buf.blocks, buf.frames, buf.files.Values
    ensures Ready(buf, P + multiset{(table, parent)} + multiset{(table, newParent)})
    ensures table in Seen(buf) && Seen(buf) == old(Seen(buf))[table := Seen(buf)[table]]
    ensures TreeOn(Seen(buf)[table], T) && Space(Seen(buf)[table]) >= old(Space(Seen(buf)[table])) - 1
    ensures RootNumber(Seen(buf)[table]) == old(RootNumber(Seen(buf)[table]))
    ensures newParent !in T && newParent in Seen(buf)[table].used && 1 <= newParent < C.PAGE_LIMIT
    ensures newParent !in old(Seen(buf)[table].used)
    ensures Seen(buf)[table].used == old(Seen(buf)[table].used) + {newParent}
    ensures
      var v := LinkedVal(T[parent], leftIndex, key, right);
      && Divisible(v, LEAST_KEYS) && kPrime == v.keys[LEAST_KEYS]
      && NodeOn(parentPage, LeftHalf(v, LEAST_KEYS, newParent)) && NodeOn(newPage, RightHalf(v, LEAST_KEYS))
  {
    hide *;
    ghost var Pp := P + multiset{(table, parent)};
    NodeAt(Seen(buf)[table], T, parent);
    var parentArray := ReadInto(buf, table, parent, P);
    newParent := AllocNode(buf, table, T, Pp);
    var newArray := ReadInto(buf, table, newParent, Pp);
    kPrime := SplitInner(parentArray, newArray, leftIndex, key, right, newParent, T[parent]);
    parentPage, newPage := parentArray[..], newArray[..];
  }

  /** The children move, then the halves are written and unpinned. */
  method WriteInner(
    buf: Buffer, table: int, parent: nat, newParent: nat, parentPage: Page, newPage: Page,
    ghost f: F.File, ghost T: DiskGraph, ghost L: Node, ghost R: Node, ghost cs: seq<nat>, ghost P: Pins)
    requires Ready(buf, P + multiset{(table, parent)} + multiset{(table, newParent)}) && |P| + 4 <= buf.blocks.Length
    requires table in Seen(buf) && f == Seen(buf)[table] && TreeOn(f, T)
    requires parent in T && newParent in f.used && 1 <= newParent < U64
    requires NodeOn(parentPage, L) && NodeOn(newPage, R) && !R.leaf && cs == Children(R.ptrs)
    requires forall i :: 0 <= i < |cs| ==> cs[i] in T
    modifies buf, buf.blocks, buf.frames, buf.files.Values
    ensures Ready(buf, P) && table in Seen(buf) && Seen(buf) == old(Seen(buf))[table := Seen(buf)[table]]
    ensures TreeOn(Seen(buf)[table], Replaced(T, cs, newParent, parent, L, R))
    ensures Alike(f, Seen(buf)[table])
  {
    hide *;
    ghost var Q := P + multiset{(table, parent)} + multiset{(table, newParent)};
    NodeAt(f, T, parent);
    KindOf(newPage, R);
    ReplacedIs(T, cs, newParent, parent, L, R);
    AdoptPages(buf, table, newPage, newParent, T, R.keys, cs, NumberOf(R.parent), Q);
    ghost var W, f1 := WithParents(T, cs, newParent), Seen(buf)[table];
    AlikeParts(f, f1);
    StoreNode(buf, table, parent, parentPage, W, L, Q);
    ghost var f2 := Seen(buf)[table];
    AlikeParts(f1, f2);
    StoreNode(buf, table, newParent, newPage, W[parent := L], R, Q);
    AlikeTrans(f, f1, f2);
    AlikeTrans(f, f2, Seen(buf)[table]);
    assert Q == P + multiset{(table, newParent)} + multiset{(table, parent)};
    Unpin(buf, table, parent, P + multiset{(table, newParent)});
    Unpin(buf, table, newParent, P);
  }

  /** The array work of an inner split. */
  method SplitInner(
    parentPage: array<Byte>, newPage: array<Byte>, leftIndex: nat, key: int, right: nat,
    ghost newParent: nat, ghost w: Node)
    returns (kPrime: int)
    requires parentPage.Length == newPage.Length == PAGE_SIZE && parentPage != newPage && NodeOn(parentPage[..], w)
    requires !w.leaf && |w.keys| == MAX_KEY_NUMBER && |w.ptrs| == |w.keys| + 1 && leftIndex <= |w.keys|
    requires MIN_KEY <= key < KEY_LIMIT && right < U64
    modifies parentPage, newPage
    ensures
      var v := LinkedVal(w, leftIndex, key, right);
      && Divisible(v, LEAST_KEYS) && kPrime == v.keys[LEAST_KEYS]
      && NodeOn(parentPage[..], LeftHalf(v, LEAST_KEYS, newParent)) && NodeOn(newPage[..], RightHalf(v, LEAST_KEYS))
  {
    hide *;
    LeastIs();
    KeyIsLong(key);
    KindOf(parentPage[..], w);
    kPrime := SplitInnerPage(parentPage, newPage, leftIndex, key, right, w.keys, Children(w.ptrs), NumberOf(w.parent));
    InnerHalvesOn(parentPage[..], newPage[..], w, leftIndex, key, right, newParent);
  }

  // ----- Splitting upwards -----

  /** insert_into_node_after_splitting. With the pair in place the tree would be G, too full at parent. */
  method InsertIntoNodeAfterSplitting(
    buf: Buffer, table: int, root: nat, parent: nat, leftIndex: nat, key: int, right: nat,
    ghost T: DiskGraph, ghost G: DiskGraph, ghost M: map<int, Value>, ghost P: Pins)
    returns (newRoot: nat, ghost T': DiskGraph)
    requires Ready(buf, P) && |P| + 5 <= buf.blocks.Length && table in Seen(buf) && TreeOn(Seen(buf)[table], T)
    requires Space(Seen(buf)[table]) >= Climb(G, root, parent) + 2 && RootNumber(Seen(buf)[table]) == root
    requires parent in T && !T[parent].leaf && |T[parent].keys| == MAX_KEY_NUMBER
    requires |T[parent].ptrs| == |T[parent].keys| + 1 && leftIndex <= |T[parent].keys|
    requires MIN_KEY <= key < KEY_LIMIT && right < U64
    requires G == Linked(T, parent, leftIndex, key, right) && Shape(G, root) && BPlusMap.Holds(G, M)
    requires DiskFilledBut(G, root, parent)
    modifies buf, buf.blocks, buf.frames, buf.files.Values
    ensures Ready(buf, P) && table in Seen(buf) && Seen(buf) == old(Seen(buf))[table := Seen(buf)[table]]
    ensures IsDiskTree(T', newRoot, M) && TreeOn(Seen(buf)[table], T') && RootNumber(Seen(buf)[table]) == newRoot
    ensures Stray(Seen(buf)[table], T') == old(Stray(Seen(buf)[table], T))
    decreases Climb(G, root, parent), 1
  {
    hide *;
    LeastIs();
    ClimbRange(G, root, parent);
    ghost var v := LinkedVal(T[parent], leftIndex, key, right);
    ghost var f := Seen(buf)[table];
    var newParent, kPrime := DivideInner(buf, table, parent, leftIndex, key, right, T, G, root, P);
    DividedKeys(T, parent, v, LEAST_KEYS, newParent);
    StraySame(f, T, Seen(buf)[table], Adopted(DividedGraph(T, parent, v, LEAST_KEYS, newParent), newParent), newParent);
    InnerDividing(T, leftIndex, key, right, G, root, M, parent, newParent);
    T' := Adopted(DividedGraph(T, parent, v, LEAST_KEYS, newParent), newParent);
    SeparatorIs(G, root, T, parent, leftIndex, key, right);
    newRoot, T' := InsertIntoParent(buf, table, root, parent, kPrime, newParent, T', G, M, LEAST_KEYS, P);
  }

  /** get_left_index. */
  method GetLeftIndex(buf: Buffer, table: int, parent: nat, left: nat, ghost T: DiskGraph, ghost P: Pins)
    returns (leftIndex: nat)
    requires Ready(buf, P) && |P| + 2 <= buf.blocks.Length && table in Seen(buf) && TreeOn(Seen(buf)[table], T)
    requires parent in T && !T[parent].leaf && ToNode(left) in T[parent].ptrs && left != 0
    modifies buf, buf.blocks, buf.frames, buf.files.Values
    ensures Ready(buf, P) && Seen(buf) == old(Seen(buf))
    ensures leftIndex < |T[parent].ptrs| && T[parent].ptrs[leftIndex] == ToNode(left)
  {
    hide *;
    ghost var w := T[parent];
    NodeAt(Seen(buf)[table], T, parent);
    KindOf(Seen(buf)[table].pages[parent], w);
    LeftIsChild(T, parent, left);
    var page := ReadInto(buf, table, parent, P);
    leftIndex := FindLeftIndex(page[..], left, w.keys, Children(w.ptrs), NumberOf(w.parent));
    ChildPointer(T, parent, left, leftIndex);
    Unpin(buf, table, parent, P);
  }

  /** db_insert_into_parent: left has been divided; right is linked into the parent, splitting upwards if need be. */
  method InsertIntoParent(
    buf: Buffer, table: int, root: nat, left: nat, key: int, right: nat,
    ghost T: DiskGraph, ghost G: DiskGraph, ghost M: map<int, Value>, ghost s: nat, ghost P: Pins)
    returns (newRoot: nat, ghost T': DiskGraph)
    requires Ready(buf, P) && |P| + 5 <= buf.blocks.Length && table in Seen(buf) && TreeOn(Seen(buf)[table], T)
    requires Dividing(G, root, M, left, s, right, T) && left in G && s < |G[left].keys| && key == G[left].keys[s]
    requires Space(Seen(buf)[table]) >= Climb(G, root, left) + 1 && RootNumber(Seen(buf)[table]) == root
    modifies buf, buf.blocks, buf.frames, buf.files.Values
    ensures Ready(buf, P) && table in Seen(buf) && Seen(buf) == old(Seen(buf))[table := Seen(buf)[table]]
    ensures IsDiskTree(T', newRoot, M) && TreeOn(Seen(buf)[table], T') && RootNumber(Seen(buf)[table]) == newRoot
    ensures Stray(Seen(buf)[table], T') == old(Stray(Seen(buf)[table], T))
    decreases Climb(G, root, left), 0
  {
    hide *;
    LeastIs();
    ClimbRange(G, root, left);
    DividingParts(G, root, M, left, s, right, T);
    HalvesFacts(G, root, left, s, right);
    KeyInRange(G, root, left, s);
    NodeAt(Seen(buf)[table], T, right);
    ParentNumber(Seen(buf)[table], T, left);
    var parent, leftIndex, full := ParentOfHalf(buf, table, left, T, P);
    if parent == 0 {
      newRoot := InsertIntoNewRoot(buf, table, left, key, right, T, P);
      NewRootStep(G, root, M, s, right, T, newRoot);
      T' := UnderRoot(T, left, key, right, newRoot);
      return;
    }
    ParentStep(G, root, M, left, s, right, T, parent, leftIndex);
    T' := Linked(T, parent, leftIndex, key, right);
    if !full {
      ghost var f := Seen(buf)[table];
      InsertIntoInternal(buf, table, parent, leftIndex, key, right, T, P);
      AlikeParts(f, Seen(buf)[table]);
      LinkedKeys(T, parent, leftIndex, key, right);
      StrayAlike(f, T, Seen(buf)[table], T');
      newRoot := root;
    } else {
      newRoot, T' := InsertIntoNodeAfterSplitting(buf, table, root, parent, leftIndex, key, right, T, T', M, P);
    }
  }

  /** The parent of a page, its pointer to the page, and whether the parent is full; 0 for the root. */
  method ParentOfHalf(buf: Buffer, table: int, left: nat, ghost T: DiskGraph, ghost P: Pins)
    returns (parent: nat, leftIndex: nat, full: bool)
    requires Ready(buf, P) && |P| + 3 <= buf.blocks.Length && table in Seen(buf) && TreeOn(Seen(buf)[table], T)
    requires left in T && !T[left].parent.ToRecord?
    requires T[left].parent.ToNode? ==>
      var p := T[left].parent.node; p in T && !T[p].leaf && ToNode(left) in T[p].ptrs
    modifies buf, buf.blocks, buf.frames, buf.files.Values
    ensures Ready(buf, P) && Seen(buf) == old(Seen(buf))
    ensures if T[left].parent.NullPtr? then parent == 0
      else
        && parent == T[left].parent.node != 0 && leftIndex < |T[parent].ptrs|
        && T[parent].ptrs[leftIndex] == ToNode(left)
        && (full <==> |T[parent].keys| >= 248)
  {
    hide *;
    LeastIs();
    ghost var f, Q := Seen(buf)[table], P + multiset{(table, left)};
    NodeAt(f, T, left);
    KindOf(f.pages[left], T[left]);
    ParentNumber(f, T, left);
    var leftPage := ReadInto(buf, table, left, P);
    parent := ParentOf(leftPage[..]);
    leftIndex, full := 0, false;
    if parent == 0 {
      Unpin(buf, table, left, P);
      return;
    }
    NodeAt(f, T, parent);
    KindOf(f.pages[parent], T[parent]);
    leftIndex := GetLeftIndex(buf, table, parent, left, T, Q);
    var parentPage := ReadInto(buf, table, parent, Q);
    full := KeyCount(parentPage[..]) >= MAX_KEY_NUMBER;
    assert Q + multiset{(table, parent)} == P + multiset{(table, parent)} + multiset{(table, left)};
    Unpin(buf, table, left, P + multiset{(table, parent)});
    Unpin(buf, table, parent, P);
  }

  // ----- Leaves -----

  /** db_insert_into_leaf. */
  method InsertIntoLeaf(
    buf: Buffer, table: int, leaf: nat, key: int, value: Value, ghost T: DiskGraph, ghost P: Pins)
    returns (ghost i: nat)
    requires Ready(buf, P) && |P| + 2 <= buf.blocks.Length && table in Seen(buf) && TreeOn(Seen(buf)[table], T)
    requires leaf in T && T[leaf].leaf && Sorted(T[leaf].keys) && key !in T[leaf].keys
    requires MIN_KEY <= key < KEY_LIMIT && Used(Values(T[leaf].ptrs)) + SLOT_SIZE + |value| <= MAX_FREE_SPACE
    modifies buf, buf.blocks, buf.frames, buf.files.Values
    ensures Ready(buf, P) && table in Seen(buf) && Seen(buf) == old(Seen(buf))[table := Seen(buf)[table]]
    ensures BPlusSplit.Slot(T[leaf].keys, i, key) && i <= |T[leaf].keys| && i <= |T[leaf].ptrs|
    ensures TreeOn(Seen(buf)[table], T[leaf := InsertVal(T[leaf], i, key, value)])
    ensures Alike(old(Seen(buf)[table]), Seen(buf)[table])
  {
    hide *;
    ghost var f, w := Seen(buf)[table], T[leaf];
    NodeAt(f, T, leaf);
    KindOf(f.pages[leaf], w);
    KeyIsLong(key);
    var page := ReadInto(buf, table, leaf, P);
    i := InsertIntoLeafPage(page, key, value, w.keys, Values(w.ptrs), NumberOf(w.parent), NumberOf(w.next));
    SlotBound(w.keys, i, key);
    InsertedOn(page[..], w, i, key, value);
    StoreNode(buf, table, leaf, page[..], T, InsertVal(w, i, key, value), P + multiset{(table, leaf)});
    Unpin(buf, table, leaf, P);
  }

  /** The pages of a leaf split. */
  method DivideLeaf(buf: Buffer, table: int, leaf: nat, key: int, value: Value, ghost T: DiskGraph, ghost P: Pins)
    returns (newLeaf: nat, newKey: int, ghost i: nat)
    requires Ready(buf, P) && |P| + 4 <= buf.blocks.Length && table in Seen(buf)
    requires TreeOn(Seen(buf)[table], T) && Space(Seen(buf)[table]) >= 1
    requires leaf in T && T[leaf].leaf && Sorted(T[leaf].keys) && key !in T[leaf].keys && Fits(Values(T[leaf].ptrs))
    requires MIN_KEY <= key < KEY_LIMIT && MAX_FREE_SPACE < Used(Values(T[leaf].ptrs)) + SLOT_SIZE + |value|
    modifies buf, buf.blocks, buf.frames, buf.files.Values
    ensures Ready(buf, P) && table in Seen(buf) && Seen(buf) == old(Seen(buf))[table := Seen(buf)[table]]
    ensures newLeaf !in T && Space(Seen(buf)[table]) >= old(Space(Seen(buf)[table])) - 1
    ensures Seen(buf)[table].used == old(Seen(buf)[table].used) + {newLeaf} && newLeaf !in old(Seen(buf)[table].used)
    ensures RootNumber(Seen(buf)[table]) == old(RootNumber(Seen(buf)[table]))
    ensures BPlusSplit.Slot(T[leaf].keys, i, key) && i <= |T[leaf].keys| && i <= |T[leaf].ptrs|
    ensures
      var v := InsertVal(T[leaf], i, key, value);
      var s := SplitFrom(Values(v.ptrs), 0);
      && Divisible(v, s) && newKey == v.keys[s]
      && TreeOn(Seen(buf)[table], DividedGraph(T, leaf, v, s, newLeaf))
  {
    hide *;
    ghost var w := T[leaf];
    var leafPage, newPage;
    newLeaf, newKey, i, leafPage, newPage := DraftLeaf(buf, table, leaf, key, value, T, P);
    ghost var v := InsertVal(w, i, key, value);
    ghost var s, Q := SplitFrom(Values(v.ptrs), 0), P + multiset{(table, leaf)} + multiset{(table, newLeaf)};
    ghost var f := Seen(buf)[table];
    NodeAt(f, T, leaf);
    StoreNode(buf, table, leaf, leafPage, T, LeftHalf(v, s, newLeaf), Q);
    ghost var f1 := Seen(buf)[table];
    AlikeParts(f, f1);
    StoreNode(buf, table, newLeaf, newPage, T[leaf := LeftHalf(v, s, newLeaf)], RightHalf(v, s), Q);
    AlikeParts(f1, Seen(buf)[table]);
    assert Q == P + multiset{(table, newLeaf)} + multiset{(table, leaf)};
    Unpin(buf, table, leaf, P + multiset{(table, newLeaf)});
    Unpin(buf, table, newLeaf, P);
    DividedIs(T, leaf, v, s, newLeaf);
  }

  /** The pages of a leaf split are read, allocated and edited. */
  method DraftLeaf(buf: Buffer, table: int, leaf: nat, key: int, value: Value, ghost T: DiskGraph, ghost P: Pins)
    returns (newLeaf: nat, newKey: int, ghost i: nat, leafPage: Page, newPage: Page)
    requires Ready(buf, P) && |P| + 4 <= buf.blocks.Length && table in Seen(buf)
    requires TreeOn(Seen(buf)[table], T) && Space(Seen(buf)[table]) >= 1
    requires leaf in T && T[leaf].leaf && Sorted(T[leaf].keys) && key !in T[leaf].keys && Fits(Values(T[leaf].ptrs))
    requires MIN_KEY <= key < KEY_LIMIT && MAX_FREE_SPACE < Used(Values(T[leaf].ptrs)) + SLOT_SIZE + |value|
    modifies buf, buf.blocks, buf.frames, buf.files.Values
    ensures Ready(buf, P + multiset{(table, leaf)} + multiset{(table, newLeaf)})
    ensures table in Seen(buf) && Seen(buf) == old(Seen(buf))[table := Seen(buf)[table]]
    ensures TreeOn(Seen(buf)[table], T) && Space(Seen(buf)[table]) >= old(Space(Seen(buf)[table])) - 1
    ensures RootNumber(Seen(buf)[table]) == old(RootNumber(Seen(buf)[table]))
    ensures newLeaf !in T && newLeaf in Seen(buf)[table].used
    ensures Seen(buf)[table].used == old(Seen(buf)[table].used) + {newLeaf} && newLeaf !in old(Seen(buf)[table].used)
    ensures BPlusSplit.Slot(T[leaf].keys, i, key) && i <= |T[leaf].keys| && i <= |T[leaf].ptrs|
    ensures
      var v := InsertVal(T[leaf], i, key, value);
      var s := SplitFrom(Values(v.ptrs), 0);
      && Divisible(v, s) && newKey == v.keys[s]
      && NodeOn(leafPage, LeftHalf(v, s, newLeaf)) && NodeOn(newPage, RightHalf(v, s))
  {
    hide *;
    LimitIs();
    ghost var Pl := P + multiset{(table, leaf)};
    NodeAt(Seen(buf)[table], T, leaf);
    var leafArray := ReadInto(buf, table, leaf, P);
    newLeaf := AllocNode(buf, table, T, Pl);
    var newArray := ReadInto(buf, table, newLeaf, Pl);
    newKey, i := SplitLeaf(leafArray, newArray, newLeaf, key, value, T[leaf]);
    leafPage, newPage := leafArray[..], newArray[..];
  }

  /** The array work of a leaf split. */
  method SplitLeaf(
    leafPage: array<Byte>, newPage: array<Byte>, newLeaf: nat, key: int, value: Value, ghost w: Node)
    returns (newKey: int, ghost i: nat)
    requires leafPage.Length == newPage.Length == PAGE_SIZE && leafPage != newPage && NodeOn(leafPage[..], w)
    requires w.leaf && Sorted(w.keys) && key !in w.keys && Fits(Values(w.ptrs)) && newLeaf < U64
    requires MIN_KEY <= key < KEY_LIMIT && MAX_FREE_SPACE < Used(Values(w.ptrs)) + SLOT_SIZE + |value|
    modifies leafPage, newPage
    ensures BPlusSplit.Slot(w.keys, i, key) && i <= |w.keys| && i <= |w.ptrs|
    ensures
      var v := InsertVal(w, i, key, value);
      var s := SplitFrom(Values(v.ptrs), 0);
      && Divisible(v, s) && newKey == v.keys[s]
      && NodeOn(leafPage[..], LeftHalf(v, s, newLeaf)) && NodeOn(newPage[..], RightHalf(v, s))
  {
    hide *;
    KeyIsLong(key);
    KindOf(leafPage[..], w);
    i := SplitLeafPage(leafPage, newPage, newLeaf, key, value, w.keys, Values(w.ptrs), NumberOf(w.parent),
      NumberOf(w.next));
    SlotBound(w.keys, i, key);
    SplitInside(w, i, key, value);
    LeafHalvesOn(leafPage[..], newPage[..], w, i, key, value, newLeaf);
    newKey := GetSlot(newPage[..], 0).key;
  }

  /** db_insert_into_leaf_page_after_splitting. */
  method InsertIntoLeafAfterSplitting(
    buf: Buffer, table: int, root: nat, leaf: nat, key: int, value: Value,
    ghost T: DiskGraph, ghost M: map<int, Value>, ghost P: Pins)
    returns (newRoot: nat, ghost T': DiskGraph)
    requires Ready(buf, P) && |P| + 5 <= buf.blocks.Length && table in Seen(buf)
    requires TreeOn(Seen(buf)[table], T) && IsDiskTree(T, root, M) && RootNumber(Seen(buf)[table]) == root
    requires Space(Seen(buf)[table]) >= Climb(T, root, leaf) + 2
    requires leaf in T && T[leaf].leaf && T[leaf].lo <= key < T[leaf].hi && key !in M
    requires MIN_KEY <= key < KEY_LIMIT && MAX_FREE_SPACE < Used(Values(T[leaf].ptrs)) + SLOT_SIZE + |value|
    modifies buf, buf.blocks, buf.frames, buf.files.Values
    ensures Ready(buf, P) && table in Seen(buf) && Seen(buf) == old(Seen(buf))[table := Seen(buf)[table]]
    ensures TreeOn(Seen(buf)[table], T') && RootNumber(Seen(buf)[table]) == newRoot
    ensures IsDiskTree(T', newRoot, M[key := value])
    ensures Stray(Seen(buf)[table], T') == old(Stray(Seen(buf)[table], T))
  {
    hide *;
    ghost var f := Seen(buf)[table];
    LandingLeaf(T, root, M, leaf, key);
    ClimbRange(T, root, leaf);
    ghost var i;
    var newLeaf, newKey;
    newLeaf, newKey, i := DivideLeaf(buf, table, leaf, key, value, T, P);
    LeafDividing(T, root, M, leaf, i, key, value, newLeaf);
    ghost var v := InsertVal(T[leaf], i, key, value);
    ghost var s, G := SplitFrom(Values(v.ptrs), 0), T[leaf := v];
    DividedKey(T, root, leaf, i, key, value, s);
    T' := DividedGraph(T, leaf, v, s, newLeaf);
    DividedKeys(T, leaf, v, s, newLeaf);
    StraySame(f, T, Seen(buf)[table], T', newLeaf);
    newRoot, T' := InsertIntoParent(buf, table, root, leaf, newKey, newLeaf, T', G, M[key := value], s, P);
  }

  // ----- Searching -----

  /** db_find_leaf_page_number; 0 if there is no root. */
  method FindLeafPage(buf: Buffer, table: int, root: nat, key: int, ghost T: DiskGraph, ghost P: Pins) returns (n: nat)
    requires Ready(buf, P) && |P| + 2 <= buf.blocks.Length && table in Seen(buf)
    requires root != 0 ==> TreeOn(Seen(buf)[table], T) && Shape(T, root)
    requires MIN_KEY <= key < KEY_LIMIT
    modifies buf, buf.blocks, buf.frames, buf.files.Values
    ensures Ready(buf, P) && Seen(buf) == old(Seen(buf))
    ensures if root == 0 then n == 0 else n in T && T[n].leaf && T[n].lo <= key < T[n].hi
  {
    hide *;
    if root == 0 {
      return 0;
    }
    ghost var f, s := Seen(buf)[table], Seen(buf);
    BPlusMap.RootCovers(T, root, key);
    RootIn(T, root);
    n := root;
    NodeAt(f, T, n);
    KindOf(f.pages[n], T[n]);
    var page := ReadInto(buf, table, n, P);
    while IsLeaf(page[..]) == 0
      invariant n in T && T[n].lo <= key < T[n].hi && n in f.pages
      invariant Ready(buf, P + multiset{(table, n)}) && Seen(buf) == s && table in s && f == s[table]
      invariant page.Length == PAGE_SIZE && page[..] == f.pages[n]
      invariant T[n].leaf <==> IsLeaf(page[..]) != 0
      decreases T[n].level
    {
      NodeAt(f, T, n);
      KindOf(f.pages[n], T[n]);
      InnerSorted(T, root, n);
      var i := FindChild(page[..], KeyCount(page[..]), key, T[n].keys, Children(T[n].ptrs), NumberOf(T[n].parent));
      BPlusMap.DescendStep(T, root, n, i, key);
      InnerParts(page[..], T[n].keys, Children(T[n].ptrs), NumberOf(T[n].parent));
      ChildNumber(T[n].ptrs, i);
      Unpin(buf, table, n, P);
      n := ChildAt(page[..], i);
      NodeAt(f, T, n);
      KindOf(f.pages[n], T[n]);
      page := ReadInto(buf, table, n, P);
    }
    Unpin(buf, table, n, P);
  }

  /**
   The file holds a tree for M under the root its header names, and no other page is allocated; no root stands for the
   empty map.
   */
  ghost predicate Stands(f: F.File, T: DiskGraph, M: map<int, Value>) {
    && TreeOn(f, T) && Stray(f, T) == {}
    && if RootNumber(f) == 0 then T == map[] && M == map[] else IsDiskTree(T, RootNumber(f), M)
  }

  lemma StandsParts(f: F.File, T: DiskGraph, M: map<int, Value>)
    requires Stands(f, T, M)
    ensures TreeOn(f, T) && Stray(f, T) == {} && 0 in f.pages && RootNumber(f) == RootPage(f.pages[0])
    ensures if RootNumber(f) == 0 then T == map[] && M == map[]
      else IsDiskTree(T, RootNumber(f), M) && Shape(T, RootNumber(f)) && BPlusMap.Holds(T, M) && RootNumber(f) in T
  {}

  lemma StandsWhole(f: F.File, T: DiskGraph, root: nat, M: map<int, Value>)
    requires TreeOn(f, T) && Stray(f, T) == {} && RootNumber(f) == root && IsDiskTree(T, root, M)
    ensures Stands(f, T, M)
  {
    NodeAt(f, T, root);
  }

  /** db_find. None stands for the result -1. */
  method DbFind(
    buf: Buffer, table: int, key: int, ghost T: DiskGraph, ghost M: map<int, Value>, ghost P: Pins)
    returns (r: Option<Value>)
    requires Ready(buf, P) && |P| + 3 <= buf.blocks.Length && table in Seen(buf) && Stands(Seen(buf)[table], T, M)
    requires MIN_KEY <= key < KEY_LIMIT
    modifies buf, buf.blocks, buf.frames, buf.files.Values
    ensures Ready(buf, P) && Seen(buf) == old(Seen(buf))
    ensures r == if key in M then Some(M[key]) else None
  {
    hide *;
    LimitIs();
    ghost var f, Ph := Seen(buf)[table], P + multiset{(table, 0)};
    StandsParts(f, T, M);
    var header := ReadInto(buf, table, 0, P);
    var root := RootPage(header[..]);
    if root == 0 {
      Unpin(buf, table, 0, P);
      return None;
    }
    var n := FindLeafPage(buf, table, root, key, T, Ph);
    BPlusMap.LeafDecides(T, root, M, n, key);
    NodeAt(f, T, n);
    var page := ReadInto(buf, table, n, Ph);
    r := FindEntry(page[..], key, T[n], M);
    assert Ph + multiset{(table, n)} == P + multiset{(table, 0)} + multiset{(table, n)};
    Unpin(buf, table, n, Ph);
    Unpin(buf, table, 0, P);
  }

  /** The loop over the slots of a leaf. */
  method FindEntry(page: Page, key: int, ghost w: Node, ghost M: map<int, Value>) returns (r: Option<Value>)
    requires NodeOn(page, w) && w.leaf && BPlusMap.Agrees(w, M) && (key in M <==> key in w.keys)
    ensures r == if key in M then Some(M[key]) else None
  {
    hide *;
    KindOf(page, w);
    for i := 0 to KeyCount(page)
      invariant forall j :: 0 <= j < i ==> w.keys[j] != key
    {
      EntryRead(page, w.keys, Values(w.ptrs), NumberOf(w.parent), NumberOf(w.next), i);
      var slot := GetSlot(page, i);
      if slot.key == key {
        ValueFound(w, M, i);
        return Some(Get(page, slot.offset, slot.size));
      }
    }
    r := None;
  }

  // ----- Insertion -----

  /** The first insertion: a leaf is allocated and becomes the root. */
  method StartTree(
    buf: Buffer, table: int, key: int, value: Value,
    ghost none: DiskGraph, ghost M: map<int, Value>, ghost P: Pins)
    returns (root: nat, ghost T: DiskGraph)
    requires Ready(buf, P) && |P| + 3 <= buf.blocks.Length && table in Seen(buf)
    requires Stands(Seen(buf)[table], none, M) && none == map[] && M == map[]
    requires Space(Seen(buf)[table]) >= 1 && MIN_KEY <= key < KEY_LIMIT
    modifies buf, buf.blocks, buf.frames, buf.files.Values
    ensures Ready(buf, P) && table in Seen(buf) && Seen(buf) == old(Seen(buf))[table := Seen(buf)[table]]
    ensures Stands(Seen(buf)[table], T, M[key := value]) && RootNumber(Seen(buf)[table]) == root
  {
    hide *;
    LimitIs();
    ghost var f0 := Seen(buf)[table];
    StandsParts(f0, none, M);
    root := AllocNode(buf, table, none, P);
    ghost var f, Pl := Seen(buf)[table], P + multiset{(table, root)};
    TreeParts(f, none);
    var leafPage, header := DraftFirst(buf, table, root, key, value, f, P);
    ghost var v: Node := Val(true, [key], [ToRecord(value)], NullPtr, NullPtr, 0, MIN_KEY, KEY_LIMIT);
    FirstOn(leafPage, key, value, v);
    StoreNode(buf, table, root, leafPage, none, v, Pl + multiset{(table, 0)});
    AlikeParts(f, Seen(buf)[table]);
    assert Pl + multiset{(table, 0)} == P + multiset{(table, 0)} + multiset{(table, root)};
    Unpin(buf, table, root, P + multiset{(table, 0)});
    T := map[root := v];
    assert none[root := v] == T && M[key := value] == map[key := value];
    StoreRoot(buf, table, root, header, T, P + multiset{(table, 0)});
    Unpin(buf, table, 0, P);
    FirstLeaf(root, key, value);
    StraySame(f0, none, Seen(buf)[table], T, root);
    StandsWhole(Seen(buf)[table], T, root, M[key := value]);
  }

  /** The two pages of the first insertion are read and edited. */
  method DraftFirst(buf: Buffer, table: int, root: nat, key: int, value: Value, ghost f: F.File, ghost P: Pins)
    returns (leafPage: Page, header: Page)
    requires Ready(buf, P) && |P| + 3 <= buf.blocks.Length && table in Seen(buf) && f == Seen(buf)[table]
    requires 0 in f.pages && root in f.pages && root < C.PAGE_LIMIT && MIN_KEY <= key < KEY_LIMIT
    modifies buf, buf.blocks, buf.frames, buf.files.Values
    ensures Ready(buf, P + multiset{(table, root)} + multiset{(table, 0)}) && Seen(buf) == old(Seen(buf))
    ensures LeafOn(leafPage, [key], [value], 0, 0) && header == SetRootPage(f.pages[0], root)
  {
    hide *;
    LimitIs();
    KeyIsLong(key);
    var leafArray := ReadInto(buf, table, root, P);
    var headerArray := ReadInto(buf, table, 0, P + multiset{(table, root)});
    SetRootField(headerArray, root);
    StartLeafPage(leafArray, key, value);
    leafPage, header := leafArray[..], headerArray[..];
  }

  /** Whether the leaf has room for a value of this size. */
  method HasFreeSpace(buf: Buffer, table: int, leaf: nat, size: nat, ghost T: DiskGraph, ghost P: Pins)
    returns (fits: bool)
    requires Ready(buf, P) && |P| + 2 <= buf.blocks.Length && table in Seen(buf) && TreeOn(Seen(buf)[table], T)
    requires leaf in T && T[leaf].leaf
    modifies buf, buf.blocks, buf.frames, buf.files.Values
    ensures Ready(buf, P) && Seen(buf) == old(Seen(buf))
    ensures fits <==> Used(Values(T[leaf].ptrs)) + SLOT_SIZE + size <= MAX_FREE_SPACE
  {
    hide *;
    NodeAt(Seen(buf)[table], T, leaf);
    var page := ReadInto(buf, table, leaf, P);
    FreeSpaceIs(page[..], T[leaf], size);
    fits := FreeSpace(page[..]) >= SLOT_SIZE + size;
    Unpin(buf, table, leaf, P);
  }

  /** The leaf that covers the key has free space for a value of this size. */
  ghost predicate LeafTakes(T: DiskGraph, key: int, size: nat) {
    exists n :: n in T && TakesAt(T[n], key, size)
  }

  ghost predicate TakesAt(v: Node, key: int, size: nat) {
    v.leaf && v.lo <= key < v.hi && Used(Values(v.ptrs)) + SLOT_SIZE + size <= MAX_FREE_SPACE
  }

  /** Only one leaf covers the key. */
  lemma TakesIff(T: DiskGraph, root: nat, n: nat, key: int, size: nat)
    requires Shape(T, root) && n in T && T[n].leaf && T[n].lo <= key < T[n].hi
    ensures LeafTakes(T, key, size) <==> Used(Values(T[n].ptrs)) + SLOT_SIZE + size <= MAX_FREE_SPACE
  {
    hide Used;
    assert Used(Values(T[n].ptrs)) + SLOT_SIZE + size <= MAX_FREE_SPACE ==> TakesAt(T[n], key, size);
    if LeafTakes(T, key, size) {
      var m :| m in T && TakesAt(T[m], key, size);
      assert Ok(T, root, n) && Ok(T, root, m);
      SameLevelUnique(T, root, n, m, key);
    }
  }

  /** The key is not in the tree: it goes into the leaf that covers it. */
  method InsertNew(
    buf: Buffer, table: int, root: nat, key: int, value: Value,
    ghost T: DiskGraph, ghost M: map<int, Value>, ghost P: Pins)
    returns (newRoot: nat, ghost T': DiskGraph)
    requires Ready(buf, P) && |P| + 5 <= buf.blocks.Length && table in Seen(buf)
    requires TreeOn(Seen(buf)[table], T) && IsDiskTree(T, root, M) && RootNumber(Seen(buf)[table]) == root
    requires root in T && root != 0 && (LeafTakes(T, key, |value|) || Space(Seen(buf)[table]) >= T[root].level + 2)
    requires MIN_KEY <= key < KEY_LIMIT && key !in M
    modifies buf, buf.blocks, buf.frames, buf.files.Values
    ensures Ready(buf, P) && table in Seen(buf) && Seen(buf) == old(Seen(buf))[table := Seen(buf)[table]]
    ensures TreeOn(Seen(buf)[table], T') && RootNumber(Seen(buf)[table]) == newRoot
    ensures IsDiskTree(T', newRoot, M[key := value])
    ensures Stray(Seen(buf)[table], T') == old(Stray(Seen(buf)[table], T))
  {
    hide *;
    DiskTreeParts(T, root, M);
    ghost var f := Seen(buf)[table];
    var leaf := FindLeafPage(buf, table, root, key, T, P);
    LandingLeaf(T, root, M, leaf, key);
    var fits := HasFreeSpace(buf, table, leaf, |value|, T, P);
    if fits {
      ghost var i := InsertIntoLeaf(buf, table, leaf, key, value, T, P);
      AlikeParts(f, Seen(buf)[table]);
      RoomStep(T, root, M, leaf, i, key, value);
      newRoot, T' := root, T[leaf := InsertVal(T[leaf], i, key, value)];
      StrayAlike(f, T, Seen(buf)[table], T');
    } else {
      LeafClimb(T, root, leaf);
      TakesIff(T, root, leaf, key, |value|);
      newRoot, T' := InsertIntoLeafAfterSplitting(buf, table, root, leaf, key, value, T, M, P);
    }
  }

  /** The pages that a splitting leaf may cost: one at every level, and a new root. */
  ghost predicate HasPages(f: F.File, T: DiskGraph) {
    Space(f) >= if RootNumber(f) in T then T[RootNumber(f)].level + 2 else 1
  }

  /** A key that is there and a leaf with free space cost no page. */
  ghost predicate HasRoom(f: F.File, T: DiskGraph, M: map<int, Value>, key: int, size: nat) {
    key in M || LeafTakes(T, key, size) || HasPages(f, T)
  }

  lemma RoomParts(f: F.File, T: DiskGraph, M: map<int, Value>, key: int, size: nat)
    requires HasRoom(f, T, M, key, size) && key !in M
    ensures T == map[] ==> Space(f) >= 1
    ensures var root := RootNumber(f); root in T ==> LeafTakes(T, key, size) || Space(f) >= T[root].level + 2
  {}

  /** db_insert. A key that is present is refused, and the caller's buffer then holds the value it has. */
  method DbInsert(
    buf: Buffer, table: int, key: int, value: Value, ghost T: DiskGraph, ghost M: map<int, Value>, ghost P: Pins)
    returns (status: int, held: Value, ghost T': DiskGraph)
    requires Ready(buf, P) && |P| + 5 <= buf.blocks.Length && table in Seen(buf) && Stands(Seen(buf)[table], T, M)
    requires HasRoom(Seen(buf)[table], T, M, key, |value|) && MIN_KEY <= key < KEY_LIMIT
    modifies buf, buf.blocks, buf.frames, buf.files.Values
    ensures Ready(buf, P) && table in Seen(buf) && Seen(buf) == old(Seen(buf))[table := Seen(buf)[table]]
    ensures key in M ==> status == -1 && held == M[key] && T' == T && Seen(buf) == old(Seen(buf))
    ensures key !in M ==> status == 0 && held == value
    ensures Stands(Seen(buf)[table], T', if key in M then M else M[key := value])
    ensures InBounds(T', RootNumber(Seen(buf)[table]))
  {
    hide *;
    LimitIs();
    ghost var f := Seen(buf)[table];
    StandsParts(f, T, M);
    var header := ReadInto(buf, table, 0, P);
    var root := RootPage(header[..]);
    var present := DbFind(buf, table, key, T, M, P + multiset{(table, 0)});
    Unpin(buf, table, 0, P);
    if present.Some? {
      StandsInBounds(f, T, M);
      return -1, present.value, T;
    }
    RoomParts(f, T, M, key, |value|);
    if root == 0 {
      root, T' := StartTree(buf, table, key, value, T, M, P);
    } else {
      root, T' := InsertNew(buf, table, root, key, value, T, M, P);
      StandsWhole(Seen(buf)[table], T', root, M[key := value]);
    }
    StandsInBounds(Seen(buf)[table], T', M[key := value]);
    status, held := 0, value;
  }

  lemma StandsInBounds(f: F.File, T: DiskGraph, M: map<int, Value>)
    requires Stands(f, T, M)
    ensures InBounds(T, RootNumber(f))
  {
    hide TreeOn, IsDiskTree, RootNumber;
    if T != map[] { DiskTreeBounds(T, RootNumber(f), M); }
  }

  /** A tree of fewer than 65536 pages has at most four levels: an internal page has at least 124 children. */
  lemma FourLevels(T: DiskGraph, root: nat, M: map<int, Value>)
    requires IsDiskTree(T, root, M) && |T| < 65536
    ensures root in T && T[root].level <= 3
  {
    hide Fits, BPlusMap.Holds, BPlusSize.Pow;
    if T[root].level > 3 {
      assert DiskFilled(T, root, root);
      forall n | n in T && n != root && !T[n].leaf ensures |T[n].ptrs| >= LEAST_KEYS + 1 {
        assert Ok(T, root, n) && DiskFilled(T, root, n);
      }
      BPlusSize.LeastNodes(T, root, LEAST_KEYS + 1);
      BPlusSize.PowGrows(LEAST_KEYS + 1, 3, T[root].level - 1);
      ThreeLevels();
    }
  }

  lemma ThreeLevels()
    ensures 2 * BPlusSize.Pow(LEAST_KEYS + 1, 3) > 65536
  {
    assert BPlusSize.Pow(LEAST_KEYS + 1, 1) == LEAST_KEYS + 1;
  }

  /** So five pages are enough for any insertion. */
  lemma FivePages(f: F.File, T: DiskGraph, M: map<int, Value>)
    requires Stands(f, T, M) && Space(f) >= 5
    ensures HasPages(f, T)
  {
    hide On, PageCount, RootPage, Shape, BPlusMap.Holds, DiskFilled;
    var root := RootNumber(f);
    if root in T {
      BPlusSize.FewNumbers(T.Keys, F.Count(f));
      FourLevels(T, root, M);
    }
  }

  /** As long as the page count can double once more there is room: a tree has more pages than levels. */
  lemma RoomWhileDoubling(f: F.File, T: DiskGraph, M: map<int, Value>)
    requires Stands(f, T, M) && 2 * F.Count(f) <= C.PAGE_LIMIT
    ensures HasPages(f, T)
  {
    hide On, PageCount, RootPage, Shape, BPlusMap.Holds, DiskFilled;
    var root := RootNumber(f);
    if root in T {
      var S := BPlusSize.LevelsHaveNodes(T, root, root);
      BPlusSize.FewNumbers(S, F.Count(f));
    }
  }

  /** No page is ever lost: each one but the header is on the free list or a page of the tree, and not both. */
  lemma EveryPage(f: F.File, T: DiskGraph, M: map<int, Value>, p: nat)
    requires Stands(f, T, M)
    ensures 0 in f.pages && (1 <= p < F.Count(f) <==> p in f.free || p in T) && !(p in f.free && p in T)
  {
    hide On, PageCount, FreeHead, IsDiskTree, F.FreeList;
    assert p in f.used ==> p !in Stray(f, T);
  }

  // ----- Histories of insertions -----

  /** The map after inserting the entries in order, where a key that is present is refused. */
  ghost function FirstWins(M: map<int, Value>, entries: seq<(int, Value)>): map<int, Value> {
    if entries == [] then M
    else
      var N, e := FirstWins(M, entries[..|entries| - 1]), entries[|entries| - 1];
      if e.0 in N then N else N[e.0 := e.1]
  }

  /** After a history every key has the value inserted first, and no other key is there. */
  lemma {:induction false} FirstWinsIs(entries: seq<(int, Value)>, k: int)
    ensures k in FirstWins(map[], entries) <==> exists i :: 0 <= i < |entries| && entries[i].0 == k
    ensures forall i :: 0 <= i < |entries| && entries[i].0 == k && (forall j :: 0 <= j < i ==> entries[j].0 != k) ==>
      k in FirstWins(map[], entries) && FirstWins(map[], entries)[k] == entries[i].1
  {
    if entries != [] {
      var front := entries[..|entries| - 1];
      FirstWinsIs(front, k);
      assert forall i :: 0 <= i < |front| ==> front[i] == entries[i];
    }
  }

  lemma NoEntries(M: map<int, Value>, entries: seq<(int, Value)>)
    ensures FirstWins(M, entries[..0]) == M
  {}

  lemma NextEntry(M: map<int, Value>, entries: seq<(int, Value)>, n: nat)
    requires n < |entries|
    ensures var N, e := FirstWins(M, entries[..n]), entries[n];
      FirstWins(M, entries[..n + 1]) == if e.0 in N then N else N[e.0 := e.1]
  {
    assert entries[..n + 1][..n] == entries[..n];
  }

  /** Follows the free list for at most five pages. */
  method FiveFree(buf: Buffer, table: int, header: Page, ghost f: F.File, ghost P: Pins) returns (five: bool)
    requires Ready(buf, P) && |P| + 2 <= buf.blocks.Length && table in Seen(buf) && f == Seen(buf)[table]
    requires F.ValidFile(f) && F.Count(f) <= C.PAGE_LIMIT && header == f.pages[0]
    modifies buf, buf.blocks, buf.frames, buf.files.Values
    ensures Ready(buf, P) && Seen(buf) == old(Seen(buf))
    ensures five <==> |f.free| >= 5
  {
    hide *;
    ghost var s := Seen(buf);
    FreeStart(f, header);
    var p, n := FreeHead(header), 0;
    while n < 5 && p != 0
      invariant 0 <= n <= |f.free| && n <= 5 && p == F.LinkAt(f.free, n)
      invariant Ready(buf, P) && Seen(buf) == s && table in s && f == s[table]
    {
      FreeNext(f, n);
      var page := ReadInto(buf, table, p, P);
      Unpin(buf, table, p, P);
      p := NextFree(page[..]);
      n := n + 1;
    }
    FreeStops(f, n);
    five := n == 5;
  }

  lemma FreeStart(f: F.File, header: Page)
    requires F.ValidFile(f) && header == f.pages[0]
    ensures FreeHead(header) == F.LinkAt(f.free, 0)
  {}

  lemma FreeNext(f: F.File, n: nat)
    requires F.ValidFile(f) && F.Count(f) <= C.PAGE_LIMIT && F.LinkAt(f.free, n) != 0
    ensures n < |f.free| && var p := f.free[n];
      p == F.LinkAt(f.free, n) && p in f.pages && p < C.PAGE_LIMIT && NextFree(f.pages[p]) == F.LinkAt(f.free, n + 1)
  {
    hide NextFree, FreeHead, PageCount;
    assert f.free[n] in f.free;
  }

  lemma FreeStops(f: F.File, n: nat)
    requires F.ValidFile(f)
    ensures F.LinkAt(f.free, n) == 0 <==> n >= |f.free|
  {
    hide NextFree, FreeHead, PageCount;
    if n < |f.free| { assert f.free[n] in f.free; }
  }

  /** Whether five pages can be had, if need be by doubling the file. */
  method CanTakeFive(
    buf: Buffer, table: int, ghost T: DiskGraph, ghost M: map<int, Value>, ghost P: Pins) returns (enough: bool)
    requires Ready(buf, P) && |P| + 3 <= buf.blocks.Length && table in Seen(buf) && Stands(Seen(buf)[table], T, M)
    modifies buf, buf.blocks, buf.frames, buf.files.Values
    ensures Ready(buf, P) && Seen(buf) == old(Seen(buf)) && table in Seen(buf)
    ensures enough ==> HasPages(Seen(buf)[table], T)
    ensures !enough ==> Space(Seen(buf)[table]) < 5
  {
    hide *;
    LimitIs();
    ghost var f := Seen(buf)[table];
    StandsParts(f, T, M);
    TreeParts(f, T);
    var header := ReadInto(buf, table, 0, P);
    enough := 2 * PageCount(header[..]) <= C.PAGE_LIMIT;
    SpaceIs(f, T);
    if enough {
      RoomWhileDoubling(f, T, M);
    } else {
      enough := FiveFree(buf, table, header[..], f, P + multiset{(table, 0)});
      if enough { FivePages(f, T, M); }
    }
    Unpin(buf, table, 0, P);
  }

  lemma PagesAreRoom(f: F.File, T: DiskGraph, M: map<int, Value>, key: int, size: nat)
    requires HasPages(f, T)
    ensures HasRoom(f, T, M, key, size)
  {}

  lemma SpaceIs(f: F.File, T: DiskGraph)
    requires TreeOn(f, T)
    ensures 0 in f.pages && F.Count(f) == PageCount(f.pages[0]) <= C.PAGE_LIMIT
    ensures 2 * F.Count(f) > C.PAGE_LIMIT ==> Space(f) == |f.free|
  {}

  // ----- One table -----

  /** A buffer over one new file. */
  method OpenFirst(numBuf: int, table: int) returns (buf: Buffer)
    ensures fresh(buf) && fresh(buf.blocks) && fresh(buf.frames) && fresh(buf.files.Values) && buf.blocks.Length >= 10
    ensures Ready(buf, multiset{}) && table in Seen(buf) && Stands(Seen(buf)[table], map[], map[])
  {
    hide *;
    var file := new F.DiskFile();
    var files := map[table := file];
    ghost var f := file.State();
    file.Parts();
    NewFile(file);
    OneFile(files, table, file);
    buf := new Buffer(numBuf, files);
    buf.ValidIsGood();
    buf.GoodParts({});
    EmptySeen(buf.C(), DiskOf(buf.files));
    ReadyWhole(buf, multiset{});
    ReadyParts(buf, multiset{});
  }

  lemma NewFile(file: F.DiskFile)
    requires file.Valid() && file.used == {} && 0 in file.pages && RootPage(file.pages[0]) == 0
    requires PageCount(file.pages[0]) <= 2560
    ensures F.ValidFile(file.State()) && Stands(file.State(), map[], map[])
  {}

  /** A buffer that holds nothing shows the files, and pins nothing. */
  lemma EmptySeen(c: C.Cache, disk: C.Disk)
    requires C.ValidCache(c) && c.index == map[]
    ensures SeenFiles(c, disk) == disk && Room.Pinning(c, multiset{})
  {
    forall t | t in disk ensures SeenFile(c, disk, t) == disk[t] {}
  }

  /** A table in the buffer, with the tree and the map that its pages stand for. */
  class Table {
    const buf: Buffer
    const table: int
    ghost var tree: DiskGraph
    ghost var contents: map<int, Value>

    ghost predicate Valid()
      reads this, buf, buf.blocks, buf.frames, buf.files.Values
    {
      buf.Valid() && table in Seen(buf) && Stands(Seen(buf)[table], tree, contents)
    }

    /** init_db and open_table, of a table that does not exist yet; nothing is pinned. */
    constructor (numBuf: int, table: int)
      ensures Valid() && contents == map[] && Room.Pinning(buf.C(), multiset{}) && this.table == table
      ensures fresh(buf) && fresh(buf.blocks) && fresh(buf.frames) && fresh(buf.files.Values)
      ensures buf.blocks.Length >= 10
    {
      hide *;
      var b := OpenFirst(numBuf, table);
      buf := b;
      this.table := table;
      tree, contents := map[], map[];
      new;
      TableWhole(multiset{});
    }

    /** db_find. None stands for the result -1. */
    method Find(key: int, ghost P: Pins) returns (r: Option<Value>)
      requires Valid() && Room.Pinning(buf.C(), P) && |P| + 3 <= buf.blocks.Length && MIN_KEY <= key < KEY_LIMIT
      modifies buf, buf.blocks, buf.frames, buf.files.Values
      ensures Valid() && Room.Pinning(buf.C(), P) && Seen(buf) == old(Seen(buf))
      ensures r == if key in contents then Some(contents[key]) else None
    {
      hide *;
      TableParts(P);
      r := DbFind(buf, table, key, tree, contents, P);
      TableWhole(P);
    }

    /** db_insert, in a buffer with five frames more than there are pins. */
    method Insert(key: int, value: Value, ghost P: Pins) returns (status: int, held: Value)
      requires Valid() && Room.Pinning(buf.C(), P) && |P| + 5 <= buf.blocks.Length && MIN_KEY <= key < KEY_LIMIT
      requires HasRoom(Seen(buf)[table], tree, contents, key, |value|)
      modifies this, buf, buf.blocks, buf.frames, buf.files.Values
      ensures Valid() && Room.Pinning(buf.C(), P) && Seen(buf) == old(Seen(buf))[table := Seen(buf)[table]]
      ensures key in old(contents) ==> status == -1 && contents == old(contents) && held == contents[key]
      ensures key !in old(contents) ==> status == 0 && contents == old(contents)[key := value] && held == value
      ensures InBounds(tree, RootNumber(Seen(buf)[table]))
    {
      hide *;
      TableParts(P);
      ghost var t;
      status, held, t := DbInsert(buf, table, key, value, tree, contents, P);
      tree := t;
      if key !in contents { contents := contents[key := value]; }
      TableWhole(P);
    }

    /** A history of insertions, for as long as the file has five pages to give; n of them are made. */
    method InsertAll(entries: seq<(int, Value)>, ghost P: Pins) returns (n: nat)
      requires Valid() && Room.Pinning(buf.C(), P) && |P| + 5 <= buf.blocks.Length
      requires forall i :: 0 <= i < |entries| ==> MIN_KEY <= entries[i].0 < KEY_LIMIT
      modifies this, buf, buf.blocks, buf.frames, buf.files.Values
      ensures Valid() && Room.Pinning(buf.C(), P) && n <= |entries|
      ensures contents == FirstWins(old(contents), entries[..n])
      ensures n < |entries| ==> Space(Seen(buf)[table]) < 5
    {
      hide *;
      n := 0;
      NoEntries(contents, entries);
      while n < |entries|
        invariant n <= |entries| && Valid() && Room.Pinning(buf.C(), P)
        invariant contents == FirstWins(old(contents), entries[..n])
      {
        TableParts(P);
        var enough := CanTakeFive(buf, table, tree, contents, P);
        TableWhole(P);
        if !enough { return; }
        PagesAreRoom(Seen(buf)[table], tree, contents, entries[n].0, |entries[n].1|);
        var status, held := Insert(entries[n].0, entries[n].1, P);
        NextEntry(old(contents), entries, n);
        n := n + 1;
      }
    }

    lemma TableParts(P: Pins)
      requires Valid() && Room.Pinning(buf.C(), P)
      ensures Ready(buf, P) && table in Seen(buf) && Stands(Seen(buf)[table], tree, contents)
    {}

    lemma TableWhole(P: Pins)
      requires Ready(buf, P) && table in Seen(buf) && Stands(Seen(buf)[table], tree, contents)
      ensures Valid() && Room.Pinning(buf.C(), P)
    {}
  }

  /** init_db with any number of frames, open_table, a history of insertions, and a search. */
  method FillNewTable(numBuf: int, table: int, entries: seq<(int, Value)>, key: int)
    returns (t: Table, n: nat, r: Option<Value>)
    requires MIN_KEY <= key < KEY_LIMIT && forall i :: 0 <= i < |entries| ==> MIN_KEY <= entries[i].0 < KEY_LIMIT
    ensures t.Valid() && n <= |entries| && t.contents == FirstWins(map[], entries[..n])
    ensures n < |entries| ==> t.table in Seen(t.buf) && Space(Seen(t.buf)[t.table]) < 5
    ensures r == if key in t.contents then Some(t.contents[key]) else None
  {
    hide *;
    t := new Table(numBuf, table);
    n := t.InsertAll(entries, multiset{});
    r := t.Find(key, multiset{});
    t.TableParts(multiset{});
  }
}
