/**
 The page buffer of buffer.cc as a value: the control blocks and frames, the index from pages to frames, and the
 ring from the least to the most recently read frame. The view is what a reader of the buffer sees; loading,
 evicting and touching a frame leave it as it is.
 */
module BufferCache {
  import opened Sequences
  import opened PageBytes
  import PageFile
  import opened BufferRing

  /** A table and a page number. */
  type Key = (int, nat)

  type Disk = map<int, PageFile.File>

  // read_new_page takes the page number as a 16-bit integer.
  const PAGE_LIMIT := 0x1_0000

  datatype Cache = Cache(blocks: seq<Block>, frames: seq<Page>, index: map<Key, nat>, order: seq<nat>)

  function KeyOf(b: Block): Key {
    (b.table, b.page)
  }

  ghost predicate Indexed(c: Cache, f: nat)
    requires f < |c.blocks|
  {
    c.blocks[f].pinned >= 0 && KeyOf(c.blocks[f]) in c.index && c.index[KeyOf(c.blocks[f])] == f
  }

  ghost predicate IndexOk(c: Cache) {
    && |c.order| <= |c.blocks| == |c.frames|
    && (forall f {:trigger Indexed(c, f)} :: 0 <= f < |c.order| ==> Indexed(c, f))
    && (forall k {:trigger c.index[k]} :: k in c.index ==> c.index[k] < |c.order| && KeyOf(c.blocks[c.index[k]]) == k)
  }

  /** The frames in use are listed, and the index maps exactly their pages to them, however they are linked. */
  ghost predicate Framed(c: Cache) {
    IndexOk(c) && forall f :: f in c.order <==> 0 <= f < |c.order|
  }

  /** The ring goes through exactly the frames in use. */
  ghost predicate ValidCache(c: Cache) {
    Framed(c) && Ring(c.blocks, c.order)
  }

  ghost predicate Agrees(h: Page, g: Page) {
    FreeHead(h) == FreeHead(g) && PageCount(h) == PageCount(g)
  }

  /**
   A clean frame is what the file holds; a header in the buffer has the free list head and page count of the
   file. The pages in skip are excepted: while a page is being allocated the file's header is ahead of the buffer.
   */
  ghost predicate FrameOk(c: Cache, disk: Disk, skip: set<Key>, f: nat)
    requires f < |c.blocks| == |c.frames|
  {
    var b := c.blocks[f];
    && b.table in disk && b.page in disk[b.table].pages && b.page < PAGE_LIMIT
    && (b.dirty ==> b.page == 0 || b.page in disk[b.table].used)
    && (KeyOf(b) !in skip && !b.dirty ==> c.frames[f] == disk[b.table].pages[b.page])
    && (KeyOf(b) !in skip && b.page == 0 ==> Agrees(c.frames[f], disk[b.table].pages[0]))
  }

  ghost predicate FilesOk(disk: Disk) {
    forall t {:trigger disk[t]} :: t in disk ==> PageFile.ValidFile(disk[t])
  }

  ghost predicate Coherent(c: Cache, disk: Disk, skip: set<Key>) {
    && |c.order| <= |c.blocks| == |c.frames| && FilesOk(disk)
    && forall f {:trigger FrameOk(c, disk, skip, f)} :: 0 <= f < |c.order| ==> FrameOk(c, disk, skip, f)
  }

  ghost predicate Exists(disk: Disk, k: Key) {
    k.0 in disk && k.1 in disk[k.0].pages
  }

  /** What a reader of page k sees. */
  ghost function View(c: Cache, disk: Disk, k: Key): Page
    requires IndexOk(c) && Exists(disk, k)
  {
    if k in c.index then c.frames[c.index[k]] else disk[k.0].pages[k.1]
  }

  ghost predicate SameView(c: Cache, disk: Disk, c': Cache, disk': Disk) {
    && IndexOk(c) && IndexOk(c')
    && (forall k {:trigger Exists(disk', k)} :: Exists(disk', k) <==> Exists(disk, k))
    && (forall k {:trigger Exists(disk, k)} :: Exists(disk, k) ==> View(c', disk', k) == View(c, disk, k))
  }

  // ----- The ring looks at the links only -----

  ghost predicate SameLinks(b: seq<Block>, b': seq<Block>) {
    |b| == |b'| && forall f :: 0 <= f < |b| ==> b'[f].prev == b[f].prev && b'[f].next == b[f].next
  }

  /** Relinking changes nothing but the links. */
  ghost predicate SameContents(b: seq<Block>, b': seq<Block>) {
    |b| == |b'| && forall f :: 0 <= f < |b| ==> b'[f] == b[f].(prev := b'[f].prev, next := b'[f].next)
  }

  lemma RingSame(b: seq<Block>, b': seq<Block>, order: seq<nat>)
    requires Ring(b, order) && SameLinks(b, b')
    ensures Ring(b', order)
  {
    forall k | 0 <= k < |order| ensures LinkOk(b', order, k) { RingAt(b, order, k); }
  }

  lemma UnlinkedContents(b: seq<Block>, i: nat)
    requires i < |b| && b[i].prev < |b| && b[i].next < |b|
    ensures SameContents(b, Unlinked(b, i))
  {
    hide Unlinked;
    UnlinkedFields(b, i, 0);
    forall j: nat | j < |b|
      ensures Unlinked(b, i)[j] == b[j].(prev := Unlinked(b, i)[j].prev, next := Unlinked(b, i)[j].next) {
      UnlinkedFields(b, i, j);
    }
  }

  lemma LinkedAfterContents(b: seq<Block>, entry: nat, i: nat)
    requires i < |b| && entry < |b| && b[entry].next < |b|
    ensures SameContents(b, LinkedAfter(b, entry, i))
  {
    hide LinkedAfter;
    var b' := LinkedAfter(b, entry, i);
    LinkedAfterFields(b, entry, i, 0);
    forall j: nat | j < |b| ensures b'[j] == b[j].(prev := b'[j].prev, next := b'[j].next) {
      LinkedAfterFields(b, entry, i, j);
    }
  }

  lemma MovedContents(b: seq<Block>, entry: nat, i: nat)
    requires Movable(b, entry, i)
    ensures SameContents(b, Moved(b, entry, i))
  {
    hide Unlinked, LinkedAfter;
    UnlinkedContents(b, i);
    LinkedAfterContents(Unlinked(b, i), entry, i);
  }

  // ----- The moves of the buffer -----

  function Renamed(b: Block, k: Key): Block {
    b.(table := k.0, page := k.1, dirty := false, pinned := 0)
  }

  function Last(order: seq<nat>): nat
    requires order != []
  {
    order[|order| - 1]
  }

  /** A page goes into the first unused frame. */
  ghost function Appended(c: Cache, k: Key, page: Page): Cache
    requires ValidCache(c) && |c.order| < |c.blocks|
  {
    var f := |c.order|;
    var b := c.blocks[f := Renamed(c.blocks[f], k)];
    Cache(AppendedBlocks(c, b, k), c.frames[f := page], c.index[k := f], c.order + [f])
  }

  ghost function AppendedBlocks(c: Cache, b: seq<Block>, k: Key): seq<Block>
    requires ValidCache(c) && |c.order| < |c.blocks| == |b|
    requires forall f :: 0 <= f < |b| && f != |c.order| ==> b[f] == c.blocks[f]
  {
    if c.order == [] then c.blocks[0 := Block(k.0, k.1, false, 0, 0, 0)]
    else
      AppendedRing(c, b);
      LinkedAfter(b, Last(c.order), |c.order|)
  }

  lemma AppendedRing(c: Cache, b: seq<Block>)
    requires ValidCache(c) && c.order != [] && |c.order| < |c.blocks| == |b|
    requires forall f :: 0 <= f < |b| && f != |c.order| ==> b[f] == c.blocks[f]
    ensures Last(c.order) < |b| && b[Last(c.order)].next < |b|
    ensures Ring(LinkedAfter(b, Last(c.order), |c.order|), c.order + [|c.order|])
  {
    hide LinkedAfter, IndexOk;
    assert forall f :: f in c.order ==> f < |c.order|;
    forall k | 0 <= k < |c.order| ensures LinkOk(b, c.order, k) {
      assert c.order[k] in c.order;
      RingAt(c.blocks, c.order, k);
    }
    assert Ring(b, c.order);
    AppendRing(b, c.order, |c.order|);
  }

  /** The page k replaces what the frame at position x of the ring holds. */
  ghost function Replaced(c: Cache, x: nat, k: Key, page: Page): Cache
    requires ValidCache(c) && x < |c.order| && |c.order| >= 2
  {
    ReplaceReady(c, x, k);
    var i := c.order[x];
    Cache(Moved(c.blocks[i := Renamed(c.blocks[i], k)], Last(c.order), i), c.frames[i := page],
          (c.index - {KeyOf(c.blocks[i])})[k := i], Without(c.order, x) + [i])
  }

  lemma ReplaceReady(c: Cache, x: nat, k: Key)
    requires ValidCache(c) && x < |c.order| && |c.order| >= 2
    ensures c.order[x] < |c.blocks| == |c.frames|
    ensures Movable(c.blocks[c.order[x] := Renamed(c.blocks[c.order[x]], k)], Last(c.order), c.order[x])
  {
    hide Ring, Movable, Moved;
    assert c.order[x] in c.order;
    ReplacedRing(c, x, c.blocks[c.order[x] := Renamed(c.blocks[c.order[x]], k)]);
  }

  /** Relinking leaves a ring unless the frame is the entry point. */
  lemma ReplacedRing(c: Cache, x: nat, b: seq<Block>)
    requires ValidCache(c) && x < |c.order| && |c.order| >= 2 && SameLinks(c.blocks, b)
    ensures Movable(b, Last(c.order), c.order[x])
    ensures
      if x + 1 < |c.order| then Ring(Moved(b, Last(c.order), c.order[x]), Without(c.order, x) + [c.order[x]])
      else !FormsRing(Moved(b, Last(c.order), c.order[x]), Without(c.order, x) + [c.order[x]])
    ensures forall f :: f in Without(c.order, x) + [c.order[x]] <==> 0 <= f < |c.order|
    ensures |Without(c.order, x) + [c.order[x]]| == |c.order|
    ensures var m := Moved(b, Last(c.order), c.order[x]); c.order[x] < |m| && m[c.order[x]].next < |c.order|
  {
    hide Moved, Movable, LinkOk, FormsRing, IndexOk;
    RingSame(c.blocks, b, c.order);
    MoveIffNotEntry(b, c.order, x);
    var order' := Without(c.order, x) + [c.order[x]];
    WithoutDistinct(c.order, x);
    assert c.order[x] in c.order && order'[0] in order';
    if x + 1 < |c.order| {
      MoveRing(b, c.order, x);
      RingLast(Moved(b, Last(c.order), c.order[x]), order');
      assert order'[|order'| - 1] == c.order[x];
    } else {
      assert order' == c.order;
      EntryMovable(b, c.order);
    }
    assert c.order[x] in c.order;
  }

  /** The frame at position x is read: it is pinned once more and becomes the most recent one. */
  ghost function Touched(c: Cache, x: nat): Cache
    requires ValidCache(c) && x < |c.order|
  {
    TouchReady(c, x);
    var i := c.order[x];
    if x + 1 == |c.order| then Pinned(c, i)
    else c.(blocks := Moved(Pinned(c, i).blocks, Last(c.order), i), order := Without(c.order, x) + [i])
  }

  /** The frame i is pinned once more. */
  ghost function Pinned(c: Cache, i: nat): Cache
    requires i < |c.blocks|
  {
    c.(blocks := c.blocks[i := c.blocks[i].(pinned := c.blocks[i].pinned + 1)])
  }

  lemma TouchReady(c: Cache, x: nat)
    requires ValidCache(c) && x < |c.order|
    ensures c.order[x] < |c.blocks|
    ensures x + 1 < |c.order| ==> Movable(Pinned(c, c.order[x]).blocks, Last(c.order), c.order[x])
  {
    hide Ring, Movable, Moved;
    assert c.order[x] in c.order;
    if x + 1 < |c.order| { ReplacedRing(c, x, Pinned(c, c.order[x]).blocks); }
  }

  // ----- What the moves keep -----

  ghost predicate Loadable(c: Cache, disk: Disk, k: Key, page: Page) {
    k !in c.index && Exists(disk, k) && k.1 < PAGE_LIMIT && page == disk[k.0].pages[k.1]
  }

  lemma AppendedContents(c: Cache, k: Key, page: Page)
    requires ValidCache(c) && |c.order| < |c.blocks|
    ensures
      var c', f := Appended(c, k, page), |c.order|;
      && |c'.blocks| == |c.blocks| && c'.order == c.order + [f]
      && KeyOf(c'.blocks[f]) == k && !c'.blocks[f].dirty && c'.blocks[f].pinned == 0
      && (forall g :: 0 <= g < f ==> c'.blocks[g] == c.blocks[g].(prev := c'.blocks[g].prev, next := c'.blocks[g].next))
      && Ring(c'.blocks, c'.order)
  {
    hide Ring, LinkedAfter;
    var f := |c.order|;
    var b := c.blocks[f := Renamed(c.blocks[f], k)];
    if f == 0 {
      assert Ring([Block(k.0, k.1, false, 0, 0, 0)] + c.blocks[1..], [0]) by { OneRing(c.blocks, k); }
      assert [Block(k.0, k.1, false, 0, 0, 0)] + c.blocks[1..] == Appended(c, k, page).blocks && c.order + [f] == [0];
    } else {
      AppendedRing(c, b);
      LinkedAfterContents(b, Last(c.order), f);
    }
  }

  lemma OneRing(b: seq<Block>, k: Key)
    requires |b| > 0
    ensures Ring([Block(k.0, k.1, false, 0, 0, 0)] + b[1..], [0])
  {
    assert LinkOk([Block(k.0, k.1, false, 0, 0, 0)] + b[1..], [0], 0);
  }

  lemma AppendIndex(c: Cache, k: Key, page: Page)
    requires ValidCache(c) && |c.order| < |c.blocks| && k !in c.index
    ensures ValidCache(Appended(c, k, page))
  {
    hide Ring, Appended;
    AppendedContents(c, k, page);
    AppendedRest(c, k, page);
    var c', f := Appended(c, k, page), |c.order|;
    forall g | 0 <= g < |c'.order| ensures Indexed(c', g) {
      if g < f { assert Indexed(c, g); }
    }
  }

  lemma AppendedRest(c: Cache, k: Key, page: Page)
    requires ValidCache(c) && |c.order| < |c.blocks|
    ensures var c', f := Appended(c, k, page), |c.order|;
      c'.frames == c.frames[f := page] && c'.index == c.index[k := f]
  {}

  lemma AppendStep(c: Cache, disk: Disk, skip: set<Key>, k: Key, page: Page)
    requires ValidCache(c) && Coherent(c, disk, skip) && |c.order| < |c.blocks| && Loadable(c, disk, k, page)
    ensures var c' := Appended(c, k, page); ValidCache(c') && Coherent(c', disk, skip) && SameView(c, disk, c', disk)
  {
    hide Ring, Appended, Agrees;
    AppendIndex(c, k, page);
    AppendedContents(c, k, page);
    AppendedRest(c, k, page);
    var c', f := Appended(c, k, page), |c.order|;
    assert Agrees(page, page) by { AgreesReflexive(page); }
    forall g | 0 <= g < |c'.order| ensures FrameOk(c', disk, skip, g) {
      if g < f { assert FrameOk(c, disk, skip, g); }
    }
  }

  lemma AgreesReflexive(page: Page)
    ensures Agrees(page, page)
  {}

  // ----- Eviction -----

  /** The disk after a dirty frame has been written back. */
  ghost function WrittenBack(c: Cache, disk: Disk, i: nat): Disk
    requires i < |c.blocks| == |c.frames| && c.blocks[i].table in disk
  {
    var b := c.blocks[i];
    if b.dirty then
      var f := disk[b.table];
      disk[b.table := PageFile.File(f.pages[b.page := c.frames[i]], f.free, f.used)]
    else disk
  }

  lemma ReplacedContents(c: Cache, x: nat, k: Key, page: Page)
    requires ValidCache(c) && x < |c.order| && |c.order| >= 2
    ensures
      var c', i := Replaced(c, x, k, page), c.order[x];
      && i < |c.blocks| && |c'.blocks| == |c.blocks| && |c'.order| == |c.order|
      && c'.order == Without(c.order, x) + [i]
      && KeyOf(c'.blocks[i]) == k && !c'.blocks[i].dirty && c'.blocks[i].pinned == 0
      && (forall g :: 0 <= g < |c.blocks| && g != i ==>
        c'.blocks[g] == c.blocks[g].(prev := c'.blocks[g].prev, next := c'.blocks[g].next))
      && c'.frames == c.frames[i := page] && c'.index == (c.index - {KeyOf(c.blocks[i])})[k := i]
      && (if x + 1 < |c.order| then Ring(c'.blocks, c'.order) else !FormsRing(c'.blocks, c'.order))
      && c'.blocks[i].next < |c.order|
      && forall f :: f in c'.order <==> 0 <= f < |c'.order|
  {
    hide Ring, FormsRing, Moved, Movable;
    var i := c.order[x];
    assert i in c.order;
    var b := c.blocks[i := Renamed(c.blocks[i], k)];
    ReplacedRing(c, x, b);
    MovedContents(b, Last(c.order), i);
  }

  lemma ReplaceIndex(c: Cache, x: nat, k: Key, page: Page)
    requires ValidCache(c) && x < |c.order| && |c.order| >= 2 && k !in c.index
    ensures Framed(Replaced(c, x, k, page))
  {
    hide Ring, FormsRing, Replaced;
    ReplacedContents(c, x, k, page);
    var c', i := Replaced(c, x, k, page), c.order[x];
    assert i in c.order && Indexed(c, i);
    forall g | 0 <= g < |c'.order| ensures Indexed(c', g) {
      assert Indexed(c, g);
    }
    forall q | q in c'.index ensures c'.index[q] < |c'.order| && KeyOf(c'.blocks[c'.index[q]]) == q {
      if q != k { assert c.index[q] != i; }
    }
  }

  lemma WriteBackStep(c: Cache, disk: Disk, skip: set<Key>, i: nat)
    requires ValidCache(c) && Coherent(c, disk, skip) && i < |c.order| && KeyOf(c.blocks[i]) !in skip
    ensures c.blocks[i].table in disk && FilesOk(WrittenBack(c, disk, i))
    ensures var d := WrittenBack(c, disk, i);
      && d.Keys == disk.Keys
      && (forall k {:trigger Exists(d, k)} :: Exists(d, k) <==> Exists(disk, k))
      && (forall t :: t in disk ==> SameBooks(disk[t], d[t]))
      && (forall k {:trigger Exists(disk, k)} :: Exists(disk, k) ==>
            d[k.0].pages[k.1] == if k == KeyOf(c.blocks[i]) then c.frames[i] else disk[k.0].pages[k.1])
  {
    hide Ring;
    assert FrameOk(c, disk, skip, i);
    var b, d := c.blocks[i], WrittenBack(c, disk, i);
    if b.dirty {
      PageFile.RewriteStep(disk[b.table], b.page, c.frames[i]);
    }
    assert forall t {:trigger d[t]} :: t in d ==> t in disk && (t != b.table ==> d[t] == disk[t]);
  }

  lemma ReplaceFrame(c: Cache, disk: Disk, skip: set<Key>, x: nat, k: Key, page: Page, g: nat)
    requires ValidCache(c) && Coherent(c, disk, skip) && x < |c.order| && |c.order| >= 2 && Loadable(c, disk, k, page)
      && g < |c.order|
    requires c.order[x] < |c.order| && c.blocks[c.order[x]].table in disk && KeyOf(c.blocks[c.order[x]]) !in skip
    ensures var c', d := Replaced(c, x, k, page), WrittenBack(c, disk, c.order[x]);
      |c'.blocks| == |c'.frames| == |c.blocks| && FrameOk(c', d, skip, g)
  {
    hide Ring, FormsRing, Replaced, WrittenBack;
    ReplacedContents(c, x, k, page);
    var i := c.order[x];
    WriteBackStep(c, disk, skip, i);
    var d, q := WrittenBack(c, disk, i), KeyOf(c.blocks[g]);
    assert FrameOk(c, disk, skip, g) && Indexed(c, g) && Indexed(c, i);
    assert Exists(disk, q) && Exists(disk, k) && Exists(d, q) && Exists(d, k);
  }

  lemma ReplaceStep(c: Cache, disk: Disk, skip: set<Key>, x: nat, k: Key, page: Page)
    requires ValidCache(c) && Coherent(c, disk, skip) && x < |c.order| && |c.order| >= 2 && Loadable(c, disk, k, page)
    requires c.order[x] < |c.blocks| && KeyOf(c.blocks[c.order[x]]) !in skip
    ensures c.order[x] < |c.order| && c.blocks[c.order[x]].table in disk
    ensures var c', d := Replaced(c, x, k, page), WrittenBack(c, disk, c.order[x]);
      Framed(c') && Coherent(c', d, skip) && SameView(c, disk, c', d)
  {
    hide Ring, FormsRing, Replaced, WrittenBack, FrameOk;
    ReplaceIndex(c, x, k, page);
    ReplacedContents(c, x, k, page);
    var c', i := Replaced(c, x, k, page), c.order[x];
    assert i in c.order && Indexed(c, i);
    WriteBackStep(c, disk, skip, i);
    var d := WrittenBack(c, disk, i);
    forall g | 0 <= g < |c'.order| ensures FrameOk(c', d, skip, g) { ReplaceFrame(c, disk, skip, x, k, page, g); }
  }

  // ----- Reading, writing and unpinning a frame in the buffer -----

  /** Blocks that keep their pages and their dirty marks show the same pages. */
  lemma Steady(c: Cache, c': Cache, disk: Disk, skip: set<Key>)
    requires Framed(c) && Coherent(c, disk, skip)
    requires c'.frames == c.frames && c'.index == c.index && |c'.order| == |c.order| && |c'.blocks| == |c.blocks|
    requires forall f :: f in c'.order <==> 0 <= f < |c.order|
    requires forall f :: 0 <= f < |c.blocks| ==>
      KeyOf(c'.blocks[f]) == KeyOf(c.blocks[f]) && c'.blocks[f].dirty == c.blocks[f].dirty
    requires forall f :: 0 <= f < |c.order| ==> c'.blocks[f].pinned >= 0
    ensures Framed(c') && Coherent(c', disk, skip) && SameView(c, disk, c', disk)
  {
    hide Agrees;
    forall f | 0 <= f < |c'.order| ensures Indexed(c', f) && FrameOk(c', disk, skip, f) {
      assert Indexed(c, f) && FrameOk(c, disk, skip, f);
    }
  }

  lemma TouchedContents(c: Cache, x: nat)
    requires ValidCache(c) && x < |c.order|
    ensures var c', i := Touched(c, x), c.order[x];
      && i < |c.order| && c'.frames == c.frames && c'.index == c.index && |c'.blocks| == |c.blocks|
      && c'.order == Without(c.order, x) + [i] && |c'.order| == |c.order|
      && Ring(c'.blocks, c'.order) && (forall f :: f in c'.order <==> 0 <= f < |c.order|)
      && (forall f :: 0 <= f < |c.blocks| ==>
            c'.blocks[f] == c.blocks[f].(prev := c'.blocks[f].prev, next := c'.blocks[f].next,
                                         pinned := if f == i then c.blocks[f].pinned + 1 else c.blocks[f].pinned))
  {
    hide Ring, Moved, Movable;
    var i := c.order[x];
    assert i in c.order;
    var b := c.blocks[i := c.blocks[i].(pinned := c.blocks[i].pinned + 1)];
    if x + 1 == |c.order| {
      RingSame(c.blocks, b, c.order);
      assert Without(c.order, x) + [i] == c.order;
    } else {
      ReplacedRing(c, x, b);
      MovedContents(b, Last(c.order), i);
    }
  }

  lemma TouchStep(c: Cache, disk: Disk, skip: set<Key>, x: nat)
    requires ValidCache(c) && Coherent(c, disk, skip) && x < |c.order|
    ensures var c' := Touched(c, x); ValidCache(c') && Coherent(c', disk, skip) && SameView(c, disk, c', disk)
  {
    hide Ring, Touched;
    TouchedContents(c, x);
    forall f | 0 <= f < |c.order| ensures c.blocks[f].pinned >= 0 { assert Indexed(c, f); }
    Steady(c, Touched(c, x), disk, skip);
  }

  ghost function Unpinned(c: Cache, i: nat): Cache
    requires i < |c.blocks|
  {
    c.(blocks := c.blocks[i := c.blocks[i].(pinned := c.blocks[i].pinned - 1)])
  }

  lemma UnpinStep(c: Cache, disk: Disk, skip: set<Key>, i: nat)
    requires ValidCache(c) && Coherent(c, disk, skip) && i < |c.order| && c.blocks[i].pinned > 0
    ensures var c' := Unpinned(c, i); ValidCache(c') && Coherent(c', disk, skip) && SameView(c, disk, c', disk)
  {
    hide Ring;
    forall f | 0 <= f < |c.order| ensures c.blocks[f].pinned >= 0 { assert Indexed(c, f); }
    RingSame(c.blocks, Unpinned(c, i).blocks, c.order);
    Steady(c, Unpinned(c, i), disk, skip);
  }

  ghost function Overwritten(c: Cache, i: nat, src: Page): Cache
    requires i < |c.blocks| == |c.frames|
  {
    c.(blocks := c.blocks[i := c.blocks[i].(dirty := true)], frames := c.frames[i := src])
  }

  /** Writing a frame changes the view of its page and of no other. */
  ghost predicate ViewChangedAt(c: Cache, disk: Disk, c': Cache, k: Key, src: Page) {
    && IndexOk(c) && IndexOk(c')
    && forall q {:trigger Exists(disk, q)} :: Exists(disk, q) ==>
         View(c', disk, q) == if q == k then src else View(c, disk, q)
  }

  lemma OverwriteValid(c: Cache, i: nat, src: Page)
    requires ValidCache(c) && i < |c.order|
    ensures ValidCache(Overwritten(c, i, src))
  {
    hide Ring;
    var c' := Overwritten(c, i, src);
    RingSame(c.blocks, c'.blocks, c.order);
    forall f | 0 <= f < |c'.order| ensures Indexed(c', f) { assert Indexed(c, f); }
  }

  lemma OverwriteStep(c: Cache, disk: Disk, i: nat, src: Page)
    requires ValidCache(c) && i < |c.order|
    ensures var c' := Overwritten(c, i, src); ValidCache(c') && ViewChangedAt(c, disk, c', KeyOf(c.blocks[i]), src)
  {
    hide Ring;
    OverwriteValid(c, i, src);
    assert Indexed(c, i);
    forall q | q in c.index && q != KeyOf(c.blocks[i]) ensures c.index[q] != i {}
  }

  lemma OverwriteCoherent(c: Cache, disk: Disk, skip: set<Key>, i: nat, src: Page)
    requires ValidCache(c) && Coherent(c, disk, skip) && i < |c.order| && Writable(disk, KeyOf(c.blocks[i]), src)
    ensures Coherent(Overwritten(c, i, src), disk, skip - {KeyOf(c.blocks[i])})
  {
    hide Ring, Agrees;
    forall f | 0 <= f < |c.order| ensures FrameOk(Overwritten(c, i, src), disk, skip - {KeyOf(c.blocks[i])}, f) {
      assert FrameOk(c, disk, skip, f) && Indexed(c, f) && Indexed(c, i);
    }
  }

  // ----- The order of the reads -----

  /** The position after k's last read, 0 if there was none. */
  ghost function LastRead(trace: seq<Key>, k: Key): (r: nat)
    ensures r <= |trace| && (r > 0 ==> trace[r - 1] == k) && forall i :: r <= i < |trace| ==> trace[i] != k
  {
    if trace == [] then 0
    else if trace[|trace| - 1] == k then |trace|
    else LastRead(trace[..|trace| - 1], k)
  }

  /** read_new_page takes page numbers from PAGE_LIMIT on for others. */
  lemma Truncated(page: nat)
    ensures page % 0x1_0000 == page <==> page < PAGE_LIMIT
  {}

  lemma {:induction false} LastReadBound(trace: seq<Key>, k: Key)
    ensures LastRead(trace, k) <= |trace|
  {
    if trace != [] { LastReadBound(trace[..|trace| - 1], k); }
  }

  lemma LastReadNext(trace: seq<Key>, k: Key, q: Key)
    ensures LastRead(trace + [k], q) == if q == k then |trace| + 1 else LastRead(trace, q)
  {
    assert (trace + [k])[..|trace|] == trace;
  }

  ghost predicate Within(q: seq<nat>, n: nat) {
    forall x :: 0 <= x < |q| ==> q[x] < n
  }

  /** The ring lists the frames in the order in which their pages were last read. */
  ghost predicate Recent(c: Cache, trace: seq<Key>) {
    && Within(c.order, |c.blocks|)
    && forall x, y {:trigger c.order[x], c.order[y]} :: 0 <= x < y < |c.order| ==>
         LastRead(trace, KeyOf(c.blocks[c.order[x]])) < LastRead(trace, KeyOf(c.blocks[c.order[y]]))
  }

  /** The frame i, now holding k, has moved to the end of the ring; p is what was left of the ring. */
  lemma RecentMoved(c: Cache, trace: seq<Key>, c': Cache, p: seq<nat>, i: nat, k: Key)
    requires Recent(c, trace) && c'.order == p + [i] && i < |c'.blocks| && KeyOf(c'.blocks[i]) == k
    requires Within(p, |c.blocks|) && Within(p, |c'.blocks|)
    requires forall f :: f in p ==> KeyOf(c'.blocks[f]) == KeyOf(c.blocks[f]) != k
    requires forall x, y {:trigger p[x], p[y]} :: 0 <= x < y < |p| ==>
      LastRead(trace, KeyOf(c.blocks[p[x]])) < LastRead(trace, KeyOf(c.blocks[p[y]]))
    ensures Recent(c', trace + [k])
  {
    hide LastRead;
    forall x, y | 0 <= x < y < |c'.order|
      ensures
        LastRead(trace + [k], KeyOf(c'.blocks[c'.order[x]])) < LastRead(trace + [k], KeyOf(c'.blocks[c'.order[y]]))
    {
      assert p[x] in p && (y < |p| ==> p[y] in p);
      LastReadNext(trace, k, KeyOf(c'.blocks[c'.order[x]]));
      LastReadNext(trace, k, KeyOf(c'.blocks[c'.order[y]]));
      LastReadBound(trace, KeyOf(c'.blocks[c'.order[x]]));
    }
  }

  lemma RecentAppended(c: Cache, trace: seq<Key>, k: Key, page: Page)
    requires ValidCache(c) && |c.order| < |c.blocks| && k !in c.index && Recent(c, trace)
    ensures Recent(Appended(c, k, page), trace + [k])
  {
    hide Ring, Appended, LastRead;
    AppendedContents(c, k, page);
    forall f | f in c.order ensures KeyOf(c.blocks[f]) != k { assert Indexed(c, f); }
    RecentMoved(c, trace, Appended(c, k, page), c.order, |c.order|, k);
  }

  /** Taking one frame out keeps the order of the others. */
  lemma RecentWithout(c: Cache, trace: seq<Key>, x: nat)
    requires Recent(c, trace) && x < |c.order| && Distinct(c.order)
    ensures Within(Without(c.order, x), |c.blocks|)
    ensures var p := Without(c.order, x);
      forall a, b {:trigger p[a], p[b]} :: 0 <= a < b < |p| ==>
        LastRead(trace, KeyOf(c.blocks[p[a]])) < LastRead(trace, KeyOf(c.blocks[p[b]]))
  {
    var p := Without(c.order, x);
    forall a | 0 <= a < |p| ensures p[a] < |c.blocks| { WithoutAt(c.order, x, a); }
    forall a, b | 0 <= a < b < |p|
      ensures LastRead(trace, KeyOf(c.blocks[p[a]])) < LastRead(trace, KeyOf(c.blocks[p[b]]))
    {
      WithoutAt(c.order, x, a);
      WithoutAt(c.order, x, b);
    }
  }

  lemma RecentReplaced(c: Cache, trace: seq<Key>, x: nat, k: Key, page: Page)
    requires ValidCache(c) && x < |c.order| && |c.order| >= 2 && k !in c.index && Recent(c, trace)
    ensures Recent(Replaced(c, x, k, page), trace + [k])
  {
    assert Distinct(c.order);
    hide Ring, FormsRing, Replaced, LastRead, Distinct;
    ReplacedContents(c, x, k, page);
    RecentWithout(c, trace, x);
    WithoutDistinct(c.order, x);
    var p := Without(c.order, x);
    forall f | f in p ensures f < |c.blocks| && KeyOf(c.blocks[f]) != k { assert Indexed(c, f); }
    RecentMoved(c, trace, Replaced(c, x, k, page), p, c.order[x], k);
  }

  lemma RecentTouched(c: Cache, trace: seq<Key>, x: nat)
    requires ValidCache(c) && x < |c.order| && Recent(c, trace)
    ensures c.order[x] < |c.blocks| && Recent(Touched(c, x), trace + [KeyOf(c.blocks[c.order[x]])])
  {
    assert Distinct(c.order);
    hide Ring, Touched, LastRead, Distinct;
    TouchedContents(c, x);
    RecentWithout(c, trace, x);
    WithoutDistinct(c.order, x);
    var p, k := Without(c.order, x), KeyOf(c.blocks[c.order[x]]);
    forall f | f in p ensures f < |c.blocks| && KeyOf(c.blocks[f]) != k {
      assert Indexed(c, f) && Indexed(c, c.order[x]);
    }
    RecentMoved(c, trace, Touched(c, x), p, c.order[x], k);
  }

  /** The first unpinned frame of the ring. */
  ghost predicate FirstUnpinned(c: Cache, x: nat) {
    && x < |c.order| && Within(c.order, |c.blocks|)
    && c.blocks[c.order[x]].pinned == 0 && forall y :: 0 <= y < x ==> c.blocks[c.order[y]].pinned != 0
  }

  /** It holds the page that was read longest ago among the unpinned ones. */
  lemma LeastRecentlyRead(c: Cache, trace: seq<Key>, x: nat, f: nat)
    requires ValidCache(c) && Recent(c, trace) && FirstUnpinned(c, x)
    requires f < |c.order| && c.blocks[f].pinned == 0 && f != c.order[x]
    ensures LastRead(trace, KeyOf(c.blocks[c.order[x]])) < LastRead(trace, KeyOf(c.blocks[f]))
  {
    hide LastRead, Ring, IndexOk;
    assert f in c.order;
    var y :| 0 <= y < |c.order| && c.order[y] == f;
    assert x < y;
  }

  // ----- Flushing and allocating -----

  /** Writing one frame back, which stays in the buffer. */
  lemma FlushStep(c: Cache, disk: Disk, i: nat)
    requires ValidCache(c) && Coherent(c, disk, {}) && i < |c.order|
    ensures c.blocks[i].table in disk
    ensures var d := WrittenBack(c, disk, i);
      && Coherent(c, d, {}) && SameView(c, disk, c, d) && Exists(d, KeyOf(c.blocks[i]))
      && d[c.blocks[i].table].pages[c.blocks[i].page] == c.frames[i]
  {
    hide Ring, WrittenBack;
    WriteBackStep(c, disk, {}, i);
    var d, q := WrittenBack(c, disk, i), KeyOf(c.blocks[i]);
    assert Exists(disk, q) && Indexed(c, i) by { assert FrameOk(c, disk, {}, i) && Indexed(c, i); }
    hide FrameOk, Indexed;
    forall g | 0 <= g < |c.order| ensures FrameOk(c, d, {}, g) { FlushFrame(c, disk, i, g); }
    assert q in c.index && Exists(d, q);
  }

  lemma FlushFrame(c: Cache, disk: Disk, i: nat, g: nat)
    requires ValidCache(c) && Coherent(c, disk, {}) && i < |c.order| && g < |c.order| && c.blocks[i].table in disk
    ensures FrameOk(c, WrittenBack(c, disk, i), {}, g)
  {
    hide Ring, WrittenBack;
    WriteBackStep(c, disk, {}, i);
    var d, q := WrittenBack(c, disk, i), KeyOf(c.blocks[g]);
    assert FrameOk(c, disk, {}, g) && FrameOk(c, disk, {}, i) && Indexed(c, g) && Indexed(c, i);
    assert Exists(disk, q) && Exists(d, q);
  }

  /** Allocating a page in the file changes only the header and pages that did not exist. */
  ghost predicate AllocatedIn(f: PageFile.File, g: PageFile.File) {
    && PageFile.ValidFile(g) && 0 in f.pages && f.used <= g.used
    && forall p :: p in f.pages && p != 0 ==> p in g.pages && g.pages[p] == f.pages[p]
  }

  lemma AllocStep(c: Cache, disk: Disk, t: int, g: PageFile.File)
    requires ValidCache(c) && Coherent(c, disk, {}) && t in disk && AllocatedIn(disk[t], g)
    ensures var d := disk[t := g];
      && Coherent(c, d, {(t, 0)})
      && (forall k {:trigger Exists(disk, k)} :: Exists(disk, k) ==>
            Exists(d, k) && (k != (t, 0) || k in c.index ==> View(c, d, k) == View(c, disk, k)))
  {
    hide Ring, Agrees;
    var d := disk[t := g];
    assert forall u {:trigger d[u]} :: u in d ==> u in disk && (u != t ==> d[u] == disk[u]);
    forall f | 0 <= f < |c.order| ensures FrameOk(c, d, {(t, 0)}, f) { assert FrameOk(c, disk, {}, f); }
  }

  /** A frame that is no header of t satisfies all clauses, so nothing has to be excepted. */
  lemma NoHeaderCached(c: Cache, disk: Disk, k: Key)
    requires ValidCache(c) && Coherent(c, disk, {k}) && k !in c.index
    ensures Coherent(c, disk, {})
  {
    hide Ring, Agrees;
    forall f | 0 <= f < |c.order| ensures FrameOk(c, disk, {}, f) { assert FrameOk(c, disk, {k}, f) && Indexed(c, f); }
  }

  // ----- What a read does -----

  /** How often page k is pinned. */
  ghost function Pins(c: Cache, k: Key): int
    requires IndexOk(c)
  {
    if k in c.index then c.blocks[c.index[k]].pinned else 0
  }

  /** Pages leave the buffer only unpinned, and only if they were read longest ago among the unpinned ones. */
  ghost predicate LeftFairly(c: Cache, trace: seq<Key>, c': Cache)
    requires IndexOk(c)
  {
    forall q {:trigger q in c'.index} :: q in c.index && q !in c'.index ==>
      && Pins(c, q) == 0
      && forall u {:trigger u in c.index} :: u in c.index && u != q && Pins(c, u) == 0 ==>
        LastRead(trace, q) < LastRead(trace, u)
  }

  ghost predicate PinnedOnce(c: Cache, c': Cache, k: Key)
    requires IndexOk(c) && IndexOk(c')
  {
    forall q :: Pins(c', q) == Pins(c, q) + if q == k then 1 else 0
  }

  /** The same pages, with the same ones free and allocated. */
  ghost predicate SameBooks(f: PageFile.File, g: PageFile.File) {
    g.pages.Keys == f.pages.Keys && g.free == f.free && g.used == f.used
  }

  /** Which pages the buffer holds after a read of k: k takes the place of at most one other page. */
  ghost predicate Resident(c: Cache, k: Key, c': Cache) {
    && |c'.order| == (if k in c.index || |c.order| == |c.blocks| then |c.order| else |c.order| + 1)
    && if k in c.index || |c.order| < |c.blocks| then c'.index.Keys == c.index.Keys + {k}
       else exists e {:trigger e in c.index} :: e in c.index && c'.index.Keys == c.index.Keys - {e} + {k}
  }

  /** On the disk nothing changes but the pages that left the buffer. */
  ghost predicate DiskKept(c: Cache, disk: Disk, c': Cache, disk': Disk) {
    && disk'.Keys == disk.Keys
    && (forall t {:trigger disk'[t]} :: t in disk ==> SameBooks(disk[t], disk'[t]))
    && (forall k {:trigger Exists(disk, k)} :: Exists(disk, k) ==>
          Exists(disk', k) && (k !in c.index || k in c'.index ==> disk'[k.0].pages[k.1] == disk[k.0].pages[k.1]))
  }

  /** A read of k: everything a caller can rely on, but for the links. */
  ghost predicate ReadMade(c: Cache, disk: Disk, trace: seq<Key>, skip: set<Key>, k: Key, c': Cache, disk': Disk) {
    && ValidCache(c) && Framed(c') && Coherent(c', disk', skip) && SameView(c, disk, c', disk')
    && Recent(c', trace + [k]) && LeftFairly(c, trace, c') && PinnedOnce(c, c', k) && DiskKept(c, disk, c', disk')
    && k in c'.index && c'.order != [] && c'.index[k] == Last(c'.order) && |c'.blocks| == |c.blocks|
    && Resident(c, k, c')
  }

  ghost predicate ReadDone(c: Cache, disk: Disk, trace: seq<Key>, skip: set<Key>, k: Key, c': Cache, disk': Disk) {
    ReadMade(c, disk, trace, skip, k, c', disk') && Ring(c'.blocks, c'.order)
  }

  /** The page is in the entry point, behind which there is a frame in use. */
  ghost predicate AtEntry(c: Cache, k: Key) {
    && c.order != [] && Last(c.order) < |c.blocks| && c.blocks[Last(c.order)].next < |c.order|
    && k in c.index && c.index[k] == Last(c.order)
  }

  /** A read of k that misses, up to the point where the loaded frame is pinned. */
  ghost predicate LoadMade(c: Cache, disk: Disk, trace: seq<Key>, skip: set<Key>, k: Key, c': Cache, disk': Disk) {
    && Framed(c') && AtEntry(c', k)
    && ReadMade(c, disk, trace, skip, k, Pinned(c', Last(c'.order)), disk')
  }

  lemma HitStep(c: Cache, disk: Disk, trace: seq<Key>, skip: set<Key>, x: nat)
    requires ValidCache(c) && Coherent(c, disk, skip) && Recent(c, trace) && x < |c.order|
    ensures c.order[x] < |c.blocks| && ReadDone(c, disk, trace, skip, KeyOf(c.blocks[c.order[x]]), Touched(c, x), disk)
  {
    hide Ring, Touched, LastRead, Coherent, SameView;
    RecentTouched(c, trace, x);
    TouchStep(c, disk, skip, x);
    TouchedContents(c, x);
    assert Indexed(c, c.order[x]);
  }

  lemma PinStep(c: Cache, disk: Disk, trace: seq<Key>, skip: set<Key>, i: nat)
    requires Framed(c) && Coherent(c, disk, skip) && Recent(c, trace) && i < |c.order|
    ensures var c' := Pinned(c, i);
      && Framed(c') && Coherent(c', disk, skip) && SameView(c, disk, c', disk) && Recent(c', trace)
      && PinnedOnce(c, c', KeyOf(c.blocks[i]))
  {
    hide LastRead;
    forall f | 0 <= f < |c.order| ensures c.blocks[f].pinned >= 0 { assert Indexed(c, f); }
    Steady(c, Pinned(c, i), disk, skip);
    assert Indexed(c, i);
  }

  lemma SameViewTrans(c: Cache, d: Disk, c1: Cache, d1: Disk, c2: Cache, d2: Disk)
    requires SameView(c, d, c1, d1) && SameView(c1, d1, c2, d2)
    ensures SameView(c, d, c2, d2)
  {
    forall k ensures Exists(d2, k) <==> Exists(d, k) { assert Exists(d1, k) <==> Exists(d, k); }
  }

  /** A load that pins nothing, followed by the pin. */
  lemma LoadThenPin(c: Cache, disk: Disk, trace: seq<Key>, skip: set<Key>, k: Key, c1: Cache, d: Disk, i: nat)
    requires ValidCache(c) && Framed(c1) && Coherent(c1, d, skip) && SameView(c, disk, c1, d)
      && Recent(c1, trace + [k])
    requires LeftFairly(c, trace, c1) && DiskKept(c, disk, c1, d) && Resident(c, k, c1)
    requires forall q :: Pins(c1, q) == Pins(c, q)
    requires i < |c1.order| && i == Last(c1.order) && KeyOf(c1.blocks[i]) == k && |c1.blocks| == |c.blocks|
    requires c1.blocks[i].next < |c1.order|
    ensures LoadMade(c, disk, trace, skip, k, c1, d)
  {
    hide Ring, Coherent, SameView, Recent, LastRead;
    PinStep(c1, d, trace + [k], skip, i);
    SameViewTrans(c, disk, c1, d, Pinned(c1, i), d);
    assert Indexed(c1, i);
  }

  lemma EntryNext(c: Cache)
    requires ValidCache(c) && c.order != []
    ensures Last(c.order) < |c.blocks| && c.blocks[Last(c.order)].next < |c.order|
  {
    RingAt(c.blocks, c.order, |c.order| - 1);
    assert c.order[0] in c.order;
  }

  /** A miss with a frame to spare. */
  lemma FillStep(c: Cache, disk: Disk, trace: seq<Key>, skip: set<Key>, k: Key, page: Page)
    requires ValidCache(c) && Coherent(c, disk, skip) && Recent(c, trace) && |c.order| < |c.blocks|
      && Loadable(c, disk, k, page)
    ensures LoadMade(c, disk, trace, skip, k, Appended(c, k, page), disk)
    ensures Ring(Appended(c, k, page).blocks, Appended(c, k, page).order)
  {
    hide Ring, Appended, LastRead, Coherent, SameView, Pinned;
    AppendStep(c, disk, skip, k, page);
    AppendedContents(c, k, page);
    AppendedRest(c, k, page);
    RecentAppended(c, trace, k, page);
    EntryNext(Appended(c, k, page));
    LoadThenPin(c, disk, trace, skip, k, Appended(c, k, page), disk, |c.order|);
  }

  /** A miss that evicts the first unpinned frame. */
  lemma EvictStep(c: Cache, disk: Disk, trace: seq<Key>, skip: set<Key>, x: nat, k: Key, page: Page)
    requires ValidCache(c) && Coherent(c, disk, skip) && Recent(c, trace) && Loadable(c, disk, k, page)
    requires FirstUnpinned(c, x) && |c.order| == |c.blocks| >= 2 && KeyOf(c.blocks[c.order[x]]) !in skip
    ensures c.order[x] < |c.order| && c.blocks[c.order[x]].table in disk
    ensures LoadMade(c, disk, trace, skip, k, Replaced(c, x, k, page), WrittenBack(c, disk, c.order[x]))
    ensures var c' := Replaced(c, x, k, page);
      if x + 1 < |c.order| then Ring(c'.blocks, c'.order) else !FormsRing(c'.blocks, c'.order)
  {
    assert x < |c.order| && c.order[x] < |c.blocks|;
    hide Ring, FormsRing, Replaced, LastRead, Coherent, SameView, Pinned, WrittenBack, FirstUnpinned, Recent,
         LeftFairly, IndexOk, ReadMade, Pins, Resident;
    ReplaceStep(c, disk, skip, x, k, page);
    ReplacedContents(c, x, k, page);
    RecentReplaced(c, trace, x, k, page);
    EvictPins(c, x, k, page);
    EvictFair(c, trace, x, k, page);
    EvictResident(c, x, k, page);
    assert DiskKept(c, disk, Replaced(c, x, k, page), WrittenBack(c, disk, c.order[x])) by {
      EvictKept(c, disk, skip, x, k, page);
    }
    LoadThenPin(c, disk, trace, skip, k, Replaced(c, x, k, page), WrittenBack(c, disk, c.order[x]), c.order[x]);
  }

  lemma EvictKept(c: Cache, disk: Disk, skip: set<Key>, x: nat, k: Key, page: Page)
    requires ValidCache(c) && Coherent(c, disk, skip) && x < |c.order| && |c.order| >= 2
    requires k !in c.index && Exists(disk, k)
    requires c.order[x] < |c.order| && KeyOf(c.blocks[c.order[x]]) !in skip && c.blocks[c.order[x]].table in disk
    ensures DiskKept(c, disk, Replaced(c, x, k, page), WrittenBack(c, disk, c.order[x]))
  {
    hide Ring, FormsRing, Replaced, Coherent;
    ReplacedContents(c, x, k, page);
    var i := c.order[x];
    assert Indexed(c, i);
    WriteBackStep(c, disk, skip, i);
  }

  lemma EvictResident(c: Cache, x: nat, k: Key, page: Page)
    requires ValidCache(c) && x < |c.order| == |c.blocks| && |c.order| >= 2 && k !in c.index
    ensures Resident(c, k, Replaced(c, x, k, page))
  {
    hide Ring, FormsRing, Replaced;
    ReplacedContents(c, x, k, page);
    var e := KeyOf(c.blocks[c.order[x]]);
    assert c.order[x] in c.order && Indexed(c, c.order[x]);
    assert e in c.index && Replaced(c, x, k, page).index.Keys == c.index.Keys - {e} + {k};
  }

  lemma EvictPins(c: Cache, x: nat, k: Key, page: Page)
    requires ValidCache(c) && FirstUnpinned(c, x) && |c.order| >= 2 && k !in c.index
    ensures IndexOk(Replaced(c, x, k, page)) && forall q :: Pins(Replaced(c, x, k, page), q) == Pins(c, q)
  {
    hide Ring, FormsRing, Replaced;
    ReplacedContents(c, x, k, page);
    ReplaceIndex(c, x, k, page);
    assert c.order[x] in c.order && Indexed(c, c.order[x]);
  }

  lemma EvictFair(c: Cache, trace: seq<Key>, x: nat, k: Key, page: Page)
    requires ValidCache(c) && Recent(c, trace) && FirstUnpinned(c, x) && |c.order| >= 2 && k !in c.index
    ensures LeftFairly(c, trace, Replaced(c, x, k, page))
  {
    hide Ring, FormsRing, Replaced, LastRead, Recent;
    ReplacedContents(c, x, k, page);
    var i := c.order[x];
    assert i in c.order && Indexed(c, i);
    var victim := KeyOf(c.blocks[i]);
    forall u | u in c.index && u != victim && Pins(c, u) == 0 ensures LastRead(trace, victim) < LastRead(trace, u) {
      LeastRecentlyRead(c, trace, x, c.index[u]);
    }
  }

  // ----- What a write and a flush do -----

  /** A page that may be written: an allocated one, or the header with the list head and page count of the file. */
  ghost predicate Writable(disk: Disk, k: Key, src: Page) {
    && k.0 in disk && (k.1 == 0 || k.1 in disk[k.0].used)
    && (k.1 == 0 ==> 0 in disk[k.0].pages && Agrees(src, disk[k.0].pages[0]))
  }

  ghost predicate SamePins(c: Cache, c': Cache) {
    IndexOk(c) && IndexOk(c') && forall q :: Pins(c', q) == Pins(c, q)
  }

  lemma RecentSame(c: Cache, c': Cache, trace: seq<Key>)
    requires Recent(c, trace) && c'.order == c.order && |c'.blocks| == |c.blocks|
    requires forall f :: 0 <= f < |c.blocks| ==> KeyOf(c'.blocks[f]) == KeyOf(c.blocks[f])
    ensures Recent(c', trace)
  {
    hide LastRead;
  }

  lemma WriteDone(c: Cache, disk: Disk, trace: seq<Key>, skip: set<Key>, k: Key, src: Page)
    requires ValidCache(c) && Coherent(c, disk, skip) && Recent(c, trace) && k in c.index
    ensures c.index[k] < |c.blocks| == |c.frames|
    ensures var c' := Overwritten(c, c.index[k], src);
      && ValidCache(c') && Recent(c', trace) && ViewChangedAt(c, disk, c', k, src) && SamePins(c, c')
      && (Writable(disk, k, src) ==> Coherent(c', disk, skip - {k}))
  {
    hide Ring, Recent, Coherent, Writable;
    var i := c.index[k];
    OverwriteStep(c, disk, i, src);
    if Writable(disk, k, src) { OverwriteCoherent(c, disk, skip, i, src); }
    RecentSame(c, Overwritten(c, i, src), trace);
  }

  lemma UnpinDone(c: Cache, disk: Disk, trace: seq<Key>, skip: set<Key>, k: Key)
    requires ValidCache(c) && Coherent(c, disk, skip) && Recent(c, trace) && k in c.index && Pins(c, k) > 0
    ensures c.index[k] < |c.blocks|
    ensures var c' := Unpinned(c, c.index[k]);
      && ValidCache(c') && Coherent(c', disk, skip) && Recent(c', trace)
      && SameView(c, disk, c', disk) && PinnedOnce(c', c, k)
  {
    hide Ring, Recent, Coherent, SameView;
    var i := c.index[k];
    UnpinStep(c, disk, skip, i);
    RecentSame(c, Unpinned(c, i), trace);
    assert Indexed(c, i);
  }

  /** The first n frames are on the disk. */
  ghost predicate Flushed(c: Cache, disk: Disk, n: nat) {
    n <= |c.order| <= |c.blocks| == |c.frames| &&
    forall f :: 0 <= f < n ==>
      Exists(disk, KeyOf(c.blocks[f])) && disk[c.blocks[f].table].pages[c.blocks[f].page] == c.frames[f]
  }

  lemma FlushNext(c: Cache, disk: Disk, i: nat)
    requires ValidCache(c) && Coherent(c, disk, {}) && i < |c.order| && Flushed(c, disk, i)
    ensures c.blocks[i].table in disk
    ensures var d := WrittenBack(c, disk, i); Coherent(c, d, {}) && SameView(c, disk, c, d) && Flushed(c, d, i + 1)
  {
    hide Ring, WrittenBack, Coherent, SameView;
    FlushStep(c, disk, i);
    WriteBackStep(c, disk, {}, i);
    forall f | 0 <= f < i ensures KeyOf(c.blocks[f]) != KeyOf(c.blocks[i]) { assert Indexed(c, f) && Indexed(c, i); }
    var d := WrittenBack(c, disk, i);
    forall f | 0 <= f < i
      ensures Exists(d, KeyOf(c.blocks[f])) && d[c.blocks[f].table].pages[c.blocks[f].page] == c.frames[f]
    {
      assert Exists(disk, KeyOf(c.blocks[f])) && Exists(d, KeyOf(c.blocks[f]));
    }
  }

  /** With every frame on the disk, the disk is what the readers see. */
  lemma FlushedIsView(c: Cache, disk: Disk, k: Key)
    requires ValidCache(c) && Flushed(c, disk, |c.order|) && Exists(disk, k)
    ensures disk[k.0].pages[k.1] == View(c, disk, k)
  {
    hide Ring;
    if k in c.index { assert c.index[k] < |c.order|; }
  }

  // ----- What an allocation does -----

  /** The header that buffer_alloc_page writes, from the one it has read. */
  function NewHeader(h: Page, p: nat, next: nat): Page {
    SetFreeHead(if p >= PageCount(h) then SetPageCount(h, 2 * PageCount(h)) else h, next)
  }

  lemma NewHeaderFields(h: Page, p: nat, next: nat)
    requires PageCount(h) <= 2 * PAGE_LIMIT && next < U64
    ensures var h' := NewHeader(h, p, next);
      FreeHead(h') == next && RootPage(h') == RootPage(h)
      && PageCount(h') == if p >= PageCount(h) then 2 * PageCount(h) else PageCount(h)
  {
    hide FreeHead, PageCount, RootPage, SetFreeHead, SetPageCount;
    HeaderFields(h, 2 * PageCount(h));
    HeaderFields(if p >= PageCount(h) then SetPageCount(h, 2 * PageCount(h)) else h, next);
  }

  /** A page that was free is in the buffer, if at all, as the file holds it. */
  lemma FreePageView(c: Cache, disk: Disk, t: int, g: PageFile.File, p: nat)
    requires ValidCache(c) && Coherent(c, disk, {}) && t in disk && AllocatedIn(disk[t], g)
    requires p in g.pages && p != 0 && p !in disk[t].used
    ensures View(c, disk[t := g], (t, p)) == g.pages[p]
  {
    hide Ring, Agrees;
    if (t, p) in c.index { assert FrameOk(c, disk, {}, c.index[(t, p)]); }
  }

  /** After a read the entry point is pinned, so the next read finds a victim elsewhere or none. */
  lemma ReadMakesEvictable(c: Cache, disk: Disk, trace: seq<Key>, skip: set<Key>, k: Key, c': Cache, disk': Disk)
    requires ReadDone(c, disk, trace, skip, k, c', disk')
    ensures Within(c'.order, |c'.blocks|) && |c'.order| > 0 && c'.blocks[Last(c'.order)].pinned > 0
  {
    hide Ring, Coherent, SameView, LeftFairly;
    assert Pins(c', k) == Pins(c, k) + 1;
    if k in c.index { assert Indexed(c, c.index[k]); }
  }

  ghost predicate FitsAlloc(f: PageFile.File) {
    0 in f.pages && PageFile.Count(f) <= PAGE_LIMIT && (f.free == [] ==> 2 * PageFile.Count(f) <= PAGE_LIMIT)
  }

  /** The page p has been taken off the free list of f; if the list was empty the file has doubled. */
  ghost predicate Taken(f: PageFile.File, g: PageFile.File, p: nat) {
    && 0 in f.pages && 0 in g.pages && 1 <= PageFile.Count(f) <= PAGE_LIMIT && p == PageFile.NextPage(f)
    && 0 < p < PAGE_LIMIT && p in g.pages && f.pages.Keys <= g.pages.Keys && p !in f.used && g.used == f.used + {p}
    && if f.free != [] then g.free == f.free[1..] && PageFile.Count(g) == PageFile.Count(f)
       else |g.free| == PageFile.Count(f) - 1 && PageFile.Count(g) == 2 * PageFile.Count(f)
  }

  /** The file of t has taken the page p off its free list. */
  ghost predicate FileAllocated(disk: Disk, t: int, p: nat, d: Disk) {
    && t in disk && t in d && d == disk[t := d[t]] && AllocatedIn(disk[t], d[t]) && Taken(disk[t], d[t], p)
    && FreeHead(d[t].pages[0]) == NextFree(d[t].pages[p]) < U64
    && PageCount(d[t].pages[0]) == (if p >= PageCount(disk[t].pages[0]) then 2 else 1) * PageCount(disk[t].pages[0])
    && RootPage(d[t].pages[0]) == RootPage(disk[t].pages[0])
  }

  ghost function Excepted(c: Cache, h: Key): set<Key> {
    if h in c.index then {h} else {}
  }

  lemma ExceptHeader(c: Cache, disk: Disk, t: int, p: nat, d: Disk)
    requires ValidCache(c) && Coherent(c, disk, {}) && FileAllocated(disk, t, p, d)
    ensures Coherent(c, d, Excepted(c, (t, 0)))
  {
    hide Ring, Coherent, AllocatedIn;
    AllocStep(c, disk, t, d[t]);
    if (t, 0) !in c.index { NoHeaderCached(c, d, (t, 0)); }
  }

  /** What the readers see of an allocation: the new header, which agrees with the file's, and nothing else. */
  ghost predicate AllocDone(c: Cache, disk: Disk, t: int, p: nat, c': Cache, disk': Disk) {
    && SamePins(c, c') && Exists(disk, (t, 0)) && Exists(disk', (t, 0))
    && disk'.Keys == disk.Keys && Taken(disk[t], disk'[t], p)
    && (forall u {:trigger disk'[u]} :: u in disk && u != t ==> SameBooks(disk[u], disk'[u]))
    && (forall k {:trigger Exists(disk, k)} :: Exists(disk, k) && k != (t, 0) ==>
          Exists(disk', k) && View(c', disk', k) == View(c, disk, k))
    && RootPage(View(c', disk', (t, 0))) == RootPage(View(c, disk, (t, 0)))
    && Agrees(View(c', disk', (t, 0)), disk'[t].pages[0])
  }

  /** The header the readers saw before the allocation, against the file's header after it. */
  lemma HeaderSeen(c: Cache, disk: Disk, t: int, p: nat, d: Disk)
    requires ValidCache(c) && Coherent(c, disk, {}) && FileAllocated(disk, t, p, d)
    ensures Exists(d, (t, 0)) && Exists(disk, (t, 0)) && Exists(d, (t, p))
    ensures
      var h := View(c, d, (t, 0));
      && PageCount(h) <= 2 * PAGE_LIMIT && RootPage(h) == RootPage(View(c, disk, (t, 0)))
      && PageCount(d[t].pages[0]) == if p >= PageCount(h) then 2 * PageCount(h) else PageCount(h)
    ensures View(c, d, (t, p)) == d[t].pages[p]
  {
    hide Ring, FreeHead, PageCount, RootPage, NextFree;
    FreePageView(c, disk, t, d[t], p);
    assert p < PageCount(d[t].pages[0]);
    if (t, 0) in c.index { assert FrameOk(c, disk, {}, c.index[(t, 0)]); }
  }

  /** With the header and the new page read and pinned, the header can be written so that it agrees with the file. */
  lemma AllocHeader(c: Cache, disk: Disk, t: int, p: nat, d: Disk, trace: seq<Key>,
                    c1: Cache, d1: Disk, c2: Cache, d2: Disk)
    requires ValidCache(c) && Coherent(c, disk, {}) && FileAllocated(disk, t, p, d)
    requires ReadDone(c, d, trace, Excepted(c, (t, 0)), (t, 0), c1, d1)
    requires ReadDone(c1, d1, trace + [(t, 0)], Excepted(c, (t, 0)), (t, p), c2, d2)
    ensures Exists(d, (t, 0)) && Exists(d1, (t, p)) && (t, 0) in c2.index && (t, p) in c2.index
    ensures Pins(c2, (t, 0)) == Pins(c, (t, 0)) + 1 && Pins(c2, (t, 0)) > 0
      && Pins(c2, (t, p)) == Pins(c, (t, p)) + 1 > 0
    ensures Writable(d2, (t, 0), NewHeader(View(c, d, (t, 0)), p, NextFree(View(c1, d1, (t, p)))))
  {
    hide Ring, FreeHead, PageCount, RootPage, NextFree, NewHeader, Coherent, Recent, LeftFairly, AllocatedIn;
    HeaderSeen(c, disk, t, p, d);
    var h, q := View(c, d, (t, 0)), (t, p);
    assert Exists(d1, q) <==> Exists(d, q);
    assert View(c1, d1, q) == d[t].pages[p];
    assert Pins(c, (t, 0)) >= 0 by { if (t, 0) in c.index { assert Indexed(c, c.index[(t, 0)]); } }
    assert Pins(c, q) >= 0 by { if q in c.index { assert Indexed(c, c.index[q]); } }
    NewHeaderFields(h, p, NextFree(d[t].pages[p]));
    assert Exists(d1, (t, 0));
  }

  /** A page that has just been read is still there after the next read. */
  lemma ReadTwice(c: Cache, d: Disk, trace: seq<Key>, skip: set<Key>, h: Key, c1: Cache, d1: Disk,
                  q: Key, c2: Cache, d2: Disk)
    requires ReadDone(c, d, trace, skip, h, c1, d1) && ReadDone(c1, d1, trace + [h], skip, q, c2, d2)
    ensures h in c1.index && h in c2.index
  {
    hide Ring, Coherent, SameView, Recent, LeftFairly, DiskKept, Resident;
    assert Pins(c, h) >= 0 by { if h in c.index { assert Indexed(c, c.index[h]); } }
    assert Pins(c2, h) >= Pins(c1, h) > 0;
  }

  /** The reads leave the books of the files as the allocation has left them. */
  lemma AllocBooks(disk: Disk, t: int, p: nat, d: Disk, c: Cache, c1: Cache, d1: Disk, c2: Cache, d2: Disk)
    requires FileAllocated(disk, t, p, d) && DiskKept(c, d, c1, d1) && DiskKept(c1, d1, c2, d2)
    requires (t, 0) in c1.index && (t, 0) in c2.index
    ensures d2.Keys == disk.Keys && Taken(disk[t], d2[t], p)
    ensures forall u {:trigger d2[u]} :: u in disk && u != t ==> SameBooks(disk[u], d2[u])
  {
    hide FreeHead, PageCount, RootPage, NextFree, AllocatedIn, PageFile.NextPage;
    assert Exists(d, (t, 0)) && Exists(d1, (t, 0));
    forall u | u in disk && u != t ensures SameBooks(disk[u], d2[u]) {
      assert d[u] == disk[u] && SameBooks(d[u], d1[u]);
    }
    assert SameBooks(d[t], d1[t]) && SameBooks(d1[t], d2[t]);
  }

  lemma AllocFinish(c: Cache, disk: Disk, t: int, p: nat, d: Disk, trace: seq<Key>,
                    c1: Cache, d1: Disk, c2: Cache, d2: Disk, new': Page, c3: Cache, c4: Cache, c5: Cache)
    requires ValidCache(c) && Coherent(c, disk, {}) && FileAllocated(disk, t, p, d)
    requires ReadDone(c, d, trace, Excepted(c, (t, 0)), (t, 0), c1, d1)
    requires ReadDone(c1, d1, trace + [(t, 0)], Excepted(c, (t, 0)), (t, p), c2, d2)
    requires Exists(d, (t, 0)) && Exists(d1, (t, p))
      && new' == NewHeader(View(c, d, (t, 0)), p, NextFree(View(c1, d1, (t, p))))
    requires Writable(d2, (t, 0), new') && ViewChangedAt(c2, d2, c3, (t, 0), new') && SamePins(c2, c3)
    requires SameView(c3, d2, c4, d2) && PinnedOnce(c4, c3, (t, 0))
    requires SameView(c4, d2, c5, d2) && PinnedOnce(c5, c4, (t, p))
    ensures AllocDone(c, disk, t, p, c5, d2)
  {
    hide Ring, FreeHead, PageCount, RootPage, NextFree, NewHeader, Coherent, Recent, LeftFairly, AllocatedIn,
         Resident, Taken, SameBooks;
    ReadTwice(c, d, trace, Excepted(c, (t, 0)), (t, 0), c1, d1, (t, p), c2, d2);
    AllocBooks(disk, t, p, d, c, c1, d1, c2, d2);
    hide DiskKept;
    HeaderSeen(c, disk, t, p, d);
    AllocStep(c, disk, t, d[t]);
    var q := (t, p);
    assert Exists(d1, q) <==> Exists(d, q);
    NewHeaderFields(View(c, d, (t, 0)), p, NextFree(d[t].pages[p]));
    forall k | Exists(disk, k) && k != (t, 0) ensures Exists(d2, k) && View(c5, d2, k) == View(c, disk, k) {
      assert Exists(d, k) && Exists(d1, k) && Exists(d2, k);
    }
    assert Exists(d1, (t, 0)) && Exists(d2, (t, 0));
  }
}
