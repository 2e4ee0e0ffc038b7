/**
 The page buffer of buffer.cc, with its arrays of control blocks and frames, over page files. Its methods are
 proved against the moves of module BufferCache.
 */
module PageBuffer {
  import opened Sequences
  import opened PageBytes
  import opened BufferRing
  import opened BufferCache
  import opened BufferRoom
  import PageFile

  const MIN_BUFFER_SIZE := 10

  // ----- Relinking and searching the control blocks -----

  /** The neighbours of i close up around it. */
  method UnlinkFrame(blocks: array<Block>, i: nat)
    requires i < blocks.Length && blocks[i].prev < blocks.Length && blocks[i].next < blocks.Length
    modifies blocks
    ensures blocks[..] == Unlinked(old(blocks[..]), i)
  {
    var prev, next := blocks[i].prev, blocks[i].next;
    blocks[prev] := blocks[prev].(next := next);
    blocks[next] := blocks[next].(prev := prev);
  }

  /** i goes behind the entry point. */
  method LinkFrame(blocks: array<Block>, entry: nat, i: nat)
    requires i < blocks.Length && entry < blocks.Length && blocks[entry].next < blocks.Length
    modifies blocks
    ensures blocks[..] == LinkedAfter(old(blocks[..]), entry, i)
  {
    var next := blocks[entry].next;
    blocks[entry] := blocks[entry].(next := i);
    blocks[next] := blocks[next].(prev := i);
    blocks[i] := blocks[i].(next := next, prev := entry);
  }

  ghost predicate EntryOf(order: seq<nat>, entry: int) {
    entry == if order == [] then -1 else Last(order)
  }

  /** The search from the two sides of the entry point has not met k within j steps. */
  ghost predicate Unmet(c: Cache, k: Key, j: nat)
    requires j <= |c.order|
  {
    && Within(c.order, |c.blocks|)
    && (forall x :: 0 <= x < j ==> KeyOf(c.blocks[c.order[x]]) != k)
    && (forall x :: |c.order| - j <= x < |c.order| ==> KeyOf(c.blocks[c.order[x]]) != k)
  }

  lemma NeverMet(c: Cache, k: Key)
    requires ValidCache(c) && Unmet(c, k, |c.order|)
    ensures k !in c.index
  {
    hide Ring;
    forall f | 0 <= f < |c.order| ensures KeyOf(c.blocks[f]) != k { assert f in c.order; }
  }

  lemma RingStep(c: Cache, x: nat)
    requires ValidCache(c) && x < |c.order|
    ensures c.order[x] < |c.order| && Indexed(c, c.order[x])
    ensures c.blocks[c.order[x]].next == c.order[Succ(x, |c.order|)]
      && c.blocks[c.order[x]].prev == c.order[Pred(x, |c.order|)]
  {
    RingAt(c.blocks, c.order, x);
    assert c.order[x] in c.order;
  }

  /** Whether the frame i holds the page. */
  method Holds(blocks: array<Block>, i: nat, table: int, page: nat, ghost c: Cache) returns (hit: bool)
    requires Framed(c) && blocks[..] == c.blocks && i < |c.order|
    ensures i < blocks.Length && i < |c.blocks| && blocks[i] == c.blocks[i]
    ensures hit <==> (c.blocks[i].table, c.blocks[i].page) == (table, page)
    ensures hit <==> (table, page) in c.index && c.index[(table, page)] == i
  {
    assert Indexed(c, i);
    hit := blocks[i].table == table && blocks[i].page == page;
  }


  /**
   Searches forward from behind the entry point and backward from it, at once. Without a ring it ends in its first
   round if the page is in the entry point.
   */
  method FindIndex(blocks: array<Block>, count: nat, entry: int, table: int, page: nat, ghost c: Cache) returns (i: int)
    requires ValidCache(c) || (Framed(c) && AtEntry(c, (table, page)))
    requires blocks[..] == c.blocks && count == |c.order| && EntryOf(c.order, entry)
    ensures i == if (table, page) in c.index then c.index[(table, page)] else -1
  {
    hide *;
    ghost var k, n := (table, page), |c.order|;
    SearchStart(c, k);
    var temp1: nat, temp2: nat := 0, 0;
    if count > 0 {
      EntryLast(c.order, entry);
      temp1, temp2 := blocks[entry].next, entry;
    }
    ghost var back: int := n - 1;
    for j := 0 to count
      invariant back == n - 1 - j
      invariant ValidCache(c) || j == 0
      invariant j < n && ValidCache(c) ==> temp1 == c.order[j]
      invariant j < n ==> temp1 < n && temp2 == c.order[back] < n
      invariant ValidCache(c) ==> Unmet(c, k, j)
    {
      var hit := Holds(blocks, temp1, table, page, c);
      if hit {
        return temp1;
      }
      hit := Holds(blocks, temp2, table, page, c);
      if hit {
        return temp2;
      }
      UnmetNext(c, k, j);
      Probe(c, j);
      Probe(c, back);
      temp1 := blocks[temp1].next;
      temp2 := blocks[temp2].prev;
      back := back - 1;
      if j + 1 < n {
        Probe(c, j + 1);
        Probe(c, back);
      }
    }
    NeverMet(c, k);
    i := -1;
  }

  lemma SearchStart(c: Cache, k: Key)
    requires ValidCache(c) || (Framed(c) && AtEntry(c, k))
    ensures Framed(c) && (if ValidCache(c) then Unmet(c, k, 0) else c.order != []) && |c.order| <= |c.blocks|
    ensures c.order != [] ==>
      var e := c.order[|c.order| - 1];
      && e < |c.order| && c.blocks[e].next < |c.order|
      && (ValidCache(c) ==> c.blocks[e].next == c.order[0])
      && (!ValidCache(c) ==> k in c.index && c.index[k] == e)
  {
    hide Ring;
    assert c.order != [] ==> Last(c.order) in c.order;
    if ValidCache(c) {
      OrderWithin(c);
      if c.order != [] { Probe(c, |c.order| - 1); Probe(c, 0); }
    }
  }

  lemma EntryLast(order: seq<nat>, entry: int)
    requires EntryOf(order, entry) && order != []
    ensures entry == order[|order| - 1]
  {}

  /** What the search finds at position x of the ring. */
  lemma Probe(c: Cache, x: nat)
    requires ValidCache(c) && x < |c.order|
    ensures c.order[x] < |c.order| <= |c.blocks|
    ensures var b := c.blocks[c.order[x]];
      && (b.table, b.page) in c.index && c.index[(b.table, b.page)] == c.order[x]
      && (x + 1 < |c.order| ==> b.next == c.order[x + 1]) && (x + 1 == |c.order| ==> b.next == c.order[0])
      && (x > 0 ==> b.prev == c.order[x - 1])
  {
    hide Ring;
    RingStep(c, x);
  }

  lemma UnmetNext(c: Cache, k: Key, j: nat)
    requires j < |c.order| && Unmet(c, k, j)
    requires c.order[j] < |c.blocks| && (c.blocks[c.order[j]].table, c.blocks[c.order[j]].page) != k
    requires var l := c.order[|c.order| - 1 - j]; l < |c.blocks| && (c.blocks[l].table, c.blocks[l].page) != k
    ensures Unmet(c, k, j + 1)
  {}

  lemma OrderWithin(c: Cache)
    requires ValidCache(c)
    ensures |c.order| <= |c.blocks| && Within(c.order, |c.blocks|)
  {
    hide Ring;
    forall y | 0 <= y < |c.order| ensures c.order[y] < |c.blocks| { RingStep(c, y); }
  }

  /** The first unpinned frame behind the entry point, or none. */
  method FindVictim(blocks: array<Block>, count: nat, entry: nat, ghost c: Cache)
    returns (i: nat, found: bool, ghost x: nat)
    requires ValidCache(c) && blocks[..] == c.blocks && count == |c.order| > 0 && entry == Last(c.order)
    ensures found ==> FirstUnpinned(c, x) && i == c.order[x]
    ensures !found ==> forall f :: 0 <= f < |c.order| ==> c.blocks[f].pinned != 0
  {
    hide Ring;
    ghost var n := |c.order|;
    RingStep(c, n - 1);
    i := blocks[entry].next;
    x := 0;
    OrderWithin(c);
    for j := 0 to count
      invariant x == j && (j < n ==> i == c.order[j])
      invariant forall y :: 0 <= y < j ==> c.blocks[c.order[y]].pinned != 0
    {
      if blocks[i].pinned == 0 {
        found := true;
        return;
      }
      RingStep(c, j);
      i := blocks[i].next;
      x := x + 1;
    }
    found := false;
    forall f | 0 <= f < |c.order| ensures c.blocks[f].pinned != 0 { assert f in c.order; }
  }

  // ----- The buffer -----

  /** No two tables share a file. */
  ghost predicate Separate(files: map<int, PageFile.DiskFile>) {
    forall t, u {:trigger files[t], files[u]} :: t in files && u in files && t != u ==> files[t] != files[u]
  }

  ghost function DiskOf(files: map<int, PageFile.DiskFile>): Disk
    reads files.Values
  {
    map t | t in files :: files[t].State()
  }

  lemma OneFile(files: map<int, PageFile.DiskFile>, t: int, file: PageFile.DiskFile)
    requires files == map[t := file] && PageFile.ValidFile(file.State())
    ensures files.Values == {file} && Separate(files)
    ensures DiskOf(files) == map[t := file.State()] && FilesOk(DiskOf(files))
  {
    assert t in files && files[t] == file;
    assert forall v :: v in files.Values ==> v == file;
  }

  /** The frame at position x is written back and then holds the page k. */
  ghost predicate Evicts(c: Cache, disk: Disk, x: nat, k: Key, page: Page, c': Cache, disk': Disk) {
    && ValidCache(c) && FirstUnpinned(c, x) && |c.order| >= 2
    && c.order[x] < |c.frames| && c.blocks[c.order[x]].table in disk
    && c' == Replaced(c, x, k, page) && disk' == WrittenBack(c, disk, c.order[x])
  }

  ghost predicate SkipPinned(c: Cache, skip: set<Key>) {
    forall f :: 0 <= f < |c.order| && f < |c.blocks| && KeyOf(c.blocks[f]) in skip ==> c.blocks[f].pinned > 0
  }

  lemma VictimFacts(c: Cache, disk: Disk, skip: set<Key>, x: nat)
    requires ValidCache(c) && Coherent(c, disk, skip) && |c.order| == |c.blocks| && SkipPinned(c, skip)
      && FirstUnpinned(c, x)
    ensures (Evictable(c) <==> x + 1 < |c.order|) && x < |c.order| && c.order[x] < |c.order| <= |c.frames|
    ensures c.blocks[c.order[x]].table in disk && KeyOf(c.blocks[c.order[x]]) !in skip && !AllPinned(c)
  {
    VictimIsNotEntry(c, x);
    hide Ring;
    RingStep(c, x);
    assert FrameOk(c, disk, skip, c.order[x]);
  }

  /** A dirty frame goes back to its file. */
  method WriteBack(files: map<int, PageFile.DiskFile>, b: Block, frame: Page, ghost c: Cache, ghost skip: set<Key>,
      ghost i: nat)
    requires Separate(files) && ValidCache(c) && Coherent(c, DiskOf(files), skip)
    requires i < |c.order| && b == c.blocks[i] && frame == c.frames[i] && KeyOf(b) !in skip
    modifies files.Values
    ensures b.table in files && DiskOf(files) == WrittenBack(c, old(DiskOf(files)), i)
  {
    hide ValidCache, FreeHead, PageCount;
    ghost var disk := DiskOf(files);
    assert FrameOk(c, disk, skip, i) && b.table in disk;
    assert PageFile.ValidFile(disk[b.table]) && disk[b.table] == files[b.table].State();
    if b.dirty {
      files[b.table].WritePage(b.page, frame);
      ghost var disk' := DiskOf(files);
      forall t | t in files && t != b.table ensures disk'[t] == disk[t] {
        assert files[t] != files[b.table];
      }
      assert disk' == WrittenBack(c, disk, i);
    }
  }

  /** file_read_page of a page that the file holds. */
  method Fetch(files: map<int, PageFile.DiskFile>, table: int, page: nat) returns (p: Page)
    requires FilesOk(DiskOf(files)) && Exists(DiskOf(files), (table, page))
    modifies files.Values
    ensures DiskOf(files) == old(DiskOf(files)) && p == DiskOf(files)[table].pages[page]
  {
    ghost var disk := DiskOf(files);
    assert PageFile.ValidFile(disk[table]) && disk[table] == files[table].State();
    files[table].Parts();
    PageFile.Grow0(PageFile.Count(files[table].State()), page);
    hide PageFile.ValidFile, PageFile.Count;
    p := files[table].ReadPage(page);
    assert DiskOf(files) == disk;
  }

  class Buffer {
    const blocks: array<Block>
    const frames: array<Page>
    const files: map<int, PageFile.DiskFile>
    var index: map<Key, nat>
    var count: nat
    var entry: int
    ghost var order: seq<nat>
    ghost var trace: seq<Key>  // the pages read, the latest last

    ghost function C(): Cache
      reads this, blocks, frames
    {
      Cache(blocks[..], frames[..], index, order)
    }

    ghost predicate Shape()
      reads this
    {
      count == |order| && EntryOf(order, entry) && blocks.Length == frames.Length >= MIN_BUFFER_SIZE && Separate(files)
    }

    ghost predicate Good(skip: set<Key>)
      reads this, blocks, frames, files.Values
    {
      Shape() && ValidCache(C()) && Coherent(C(), DiskOf(files), skip) && Recent(C(), trace)
    }

    ghost predicate Valid()
      reads this, blocks, frames, files.Values
    {
      Good({})
    }

    /** init_buffer, over files that are open already. */
    constructor (numBuf: int, files: map<int, PageFile.DiskFile>)
      requires Separate(files) && FilesOk(DiskOf(files))
      ensures Valid() && index == map[] && trace == [] && this.files == files
      ensures blocks.Length == (if numBuf > 10 then numBuf else 10)
      ensures fresh(blocks) && fresh(frames)
    {
      var n := if numBuf > MIN_BUFFER_SIZE then numBuf else MIN_BUFFER_SIZE;
      blocks := new Block[n](_ => Block(0, 0, false, 0, 0, 0));
      frames := new Page[n];
      this.files := files;
      index, count, entry, order, trace := map[], 0, -1, [], [];
    }

    /** read_new_page with a frame to spare. */
    method Append(table: int, page: nat, newPage: Page)
      requires Shape() && ValidCache(C()) && count < blocks.Length
      modifies `index, `count, `entry, `order, blocks, frames
      ensures Shape() && C() == Appended(old(C()), (table, page), newPage)
    {
      hide Ring;
      ghost var c := C();
      if count == 0 {
        blocks[0] := Block(table, page, false, 0, 0, 0);
      } else {
        assert entry == Last(order);
        blocks[count] := Renamed(blocks[count], (table, page));
        AppendedRing(c, blocks[..]);
        LinkFrame(blocks, entry, count);
      }
      frames[count] := newPage;
      index := index[(table, page) := count];
      entry := count;
      order := order + [count];
      count := count + 1;
    }

    /** The frame i, at position x of the ring, is filled with another page and becomes the entry point. */
    method Refill(i: nat, table: int, page: nat, newPage: Page, ghost x: nat)
      requires Shape() && ValidCache(C()) && x < |order| && |order| >= 2 && i == order[x] && i < count
      modifies `index, `entry, `order, blocks, frames
      ensures Shape() && C() == Replaced(old(C()), x, (table, page), newPage)
    {
      hide Ring, FormsRing;
      ghost var c := C();
      RingStep(c, x);
      assert entry == Last(order) >= 0;
      index := index - {(blocks[i].table, blocks[i].page)};
      blocks[i] := Renamed(blocks[i], (table, page));
      ReplacedRing(c, x, blocks[..]);
      RefillMoves(c, x, blocks[..]);
      UnlinkFrame(blocks, i);
      LinkFrame(blocks, entry, i);
      frames[i] := newPage;
      index := index[(table, page) := i];
      entry := i;
      order := Without(order, x) + [i];
    }

    /**
     read_new_page with all frames in use: the first unpinned frame behind the entry point is replaced, and if there is
     none, the entry point itself.
     */
    method Evict(table: int, page: nat, newPage: Page, ghost skip: set<Key>) returns (ok: bool, ghost x: nat)
      requires Shape() && ValidCache(C()) && Coherent(C(), DiskOf(files), skip) && count == blocks.Length
      requires SkipPinned(C(), skip)
      modifies `index, `entry, `order, blocks, frames, files.Values
      ensures Shape() && (ok <==> !AllPinned(old(C())))
      ensures ok ==> Evicts(old(C()), old(DiskOf(files)), x, (table, page), newPage, C(), DiskOf(files))
      ensures !ok ==> C() == old(C()) && DiskOf(files) == old(DiskOf(files))
    {
      hide Ring, IndexOk, Replaced, WrittenBack, FirstUnpinned, Coherent, Evictable, SkipPinned;
      ghost var c, disk := C(), DiskOf(files);
      var i, found;
      i, found, x := FindVictim(blocks, count, entry, c);
      if !found {
        return false, 0;
      }
      ok := true;
      VictimFacts(c, disk, skip, x);
      WriteBack(files, blocks[i], frames[i], c, skip, i);
      Refill(i, table, page, newPage, x);
    }

    method ReadNewPage(table: int, page: nat, ghost skip: set<Key>) returns (ok: bool)
      requires Good(skip) && Exists(DiskOf(files), (table, page)) && page < PAGE_LIMIT && (table, page) !in index
      requires SkipPinned(C(), skip)
      modifies `index, `count, `entry, `order, blocks, frames, files.Values
      ensures Shape() && (ok <==> !AllPinned(old(C())))
      ensures ok ==> LoadMade(old(C()), old(DiskOf(files)), trace, skip, (table, page), C(), DiskOf(files))
      ensures ok ==> LinksLeft(old(C()), C())
      ensures !ok ==> C() == old(C()) && DiskOf(files) == old(DiskOf(files))
    {
      hide Ring, FormsRing, Recent, IndexOk, Replaced, Appended, WrittenBack, LoadMade, Pinned;
      ghost var c, disk, k := C(), DiskOf(files), (table, page);
      var newPage := Fetch(files, table, page);
      if count < blocks.Length {
        FillStep(c, disk, trace, skip, k, newPage);
        Append(table, page, newPage);
        ok := true;
        FillLinks(c, C());
      } else {
        ghost var x;
        ok, x := Evict(table, page, newPage, skip);
        if ok {
          VictimFacts(c, disk, skip, x);
          EvictStep(c, disk, trace, skip, x, k, newPage);
          EvictLinks(c, x, C());
        }
      }
    }

    /** The frame i, at position x of the ring, is pinned and becomes the entry point. */
    method Touch(i: nat, ghost x: nat)
      requires Shape() && ValidCache(C()) && x < |order| && i == order[x] && i < count
      modifies `entry, `order, blocks
      ensures Shape() && C() == Touched(old(C()), x)
    {
      hide Ring, IndexOk, Unlinked, LinkedAfter, Movable, Touched;
      ghost var c := C();
      OrderWithin(c);
      RingStep(c, x);
      assert entry == Last(order) >= 0;
      blocks[i] := blocks[i].(pinned := blocks[i].pinned + 1);
      TouchedIs(c, x, blocks[..]);
      if entry == i {
        return;
      }
      ReplacedRing(c, x, blocks[..]);
      RefillMoves(c, x, blocks[..]);
      UnlinkFrame(blocks, i);
      LinkFrame(blocks, entry, i);
      entry := i;
      order := Without(order, x) + [i];
    }

    lemma GoodParts(skip: set<Key>)
      requires Good(skip)
      ensures Shape() && ValidCache(C()) && Coherent(C(), DiskOf(files), skip) && Recent(C(), trace) && IndexOk(C())
      ensures C().index == index && C().order == order && C().blocks == blocks[..] && C().frames == frames[..]
      ensures |order| == count && EntryOf(order, entry)
    {}

    lemma GoodWhole(skip: set<Key>)
      requires Shape() && ValidCache(C()) && Coherent(C(), DiskOf(files), skip) && Recent(C(), trace)
      ensures Good(skip)
    {}

    lemma ShapeParts()
      requires Shape()
      ensures |order| == count && EntryOf(order, entry)
      ensures C().index == index && C().order == order && C().blocks == blocks[..] && C().frames == frames[..]
    {}

    /** A page that is not in the buffer is loaded and pinned. */
    method ReadMiss(table: int, page: nat, ghost skip: set<Key>) returns (i: int)
      requires Good(skip) && Exists(DiskOf(files), (table, page)) && page < PAGE_LIMIT && (table, page) !in index
      requires SkipPinned(C(), skip)
      modifies `index, `count, `entry, `order, blocks, frames, files.Values
      ensures i == -1 <==> AllPinned(old(C()))
      ensures i == -1 ==> Shape() && C() == old(C()) && DiskOf(files) == old(DiskOf(files))
      ensures i != -1 ==> Shape() && (table, page) in index && i == index[(table, page)]
      ensures i != -1 ==> ReadMade(old(C()), old(DiskOf(files)), trace, skip, (table, page), C(), DiskOf(files))
      ensures i != -1 ==> LinksLeft(old(C()), C())
    {
      hide *;
      Truncated(page);
      ghost var c, disk, k := C(), DiskOf(files), (table, page);
      var ok := ReadNewPage(table, page % 0x1_0000, skip);
      if !ok {
        return -1;
      }
      ghost var c1 := C();
      LoadFacts(c, disk, trace, skip, k, c1, DiskOf(files));
      ShapeParts();
      i := FindIndex(blocks, count, entry, table, page, c1);
      blocks[i] := blocks[i].(pinned := blocks[i].pinned + 1);
      PinnedIs(c1, i, blocks[..]);
      LinksPinned(c, c1, i);
      ShapeParts();
      ReadKeeps(c, disk, trace, skip, k, C(), DiskOf(files));
    }

    /** A page that is in the buffer is pinned and becomes the most recent one. */
    method ReadHit(i: nat, ghost skip: set<Key>, ghost k: Key)
      requires Good(skip) && k in index && i == index[k]
      modifies `entry, `order, blocks
      ensures Shape() && ReadDone(old(C()), old(DiskOf(files)), trace, skip, k, C(), DiskOf(files))
    {
      hide *;
      ghost var c, disk := C(), DiskOf(files);
      GoodParts(skip);
      IndexedAt(c, k);
      ghost var x := Position(c, i);
      HitStep(c, disk, trace, skip, x);
      Touch(i, x);
    }

    /** The read is remembered. */
    ghost method Log(k: Key, skip: set<Key>)
      requires Shape() && Coherent(C(), DiskOf(files), skip) && Recent(C(), trace + [k])
      modifies `trace
      ensures (ValidCache(C()) ==> Good(skip)) && trace == old(trace) + [k]
      ensures C() == old(C()) && DiskOf(files) == old(DiskOf(files))
    {
      hide ValidCache, Coherent, Recent, DiskOf, Separate;
      trace := trace + [k];
    }

    /** buffer_read_page. None stands for the exit of the source when every frame is pinned. */
    method ReadSkipping(table: int, page: nat, ghost skip: set<Key>) returns (r: Option<Page>)
      requires Good(skip) && Exists(DiskOf(files), (table, page)) && page < PAGE_LIMIT
      requires (table, page) !in index ==> SkipPinned(C(), skip)
      modifies this, blocks, frames, files.Values
      ensures KeepsRing(old(C()), (table, page)) ==> Good(skip)
      ensures r.None? <==> (table, page) !in old(index) && AllPinned(old(C()))
      ensures r.Some? ==>
        && trace == old(trace) + [(table, page)] && r.value == View(old(C()), old(DiskOf(files)), (table, page))
        && ReadEnds(old(C()), old(DiskOf(files)), old(trace), skip, (table, page), C(), DiskOf(files))
      ensures r.None? ==> Good(skip) && C() == old(C()) && DiskOf(files) == old(DiskOf(files)) && trace == old(trace)
    {
      hide *;
      ghost var c, disk, k := C(), DiskOf(files), (table, page);
      GoodParts(skip);
      var i := FindIndex(blocks, count, entry, table, page, c);
      if i == -1 {
        i := ReadMiss(table, page, skip);
        if i == -1 {
          GoodWhole(skip);
          return None;
        }
        MissEnds(c, disk, trace, skip, k, C(), DiskOf(files));
      } else {
        ReadHit(i, skip, k);
        HitEnds(c, disk, trace, skip, k, C(), DiskOf(files));
      }
      ReadFacts(c, disk, trace, skip, k, C(), DiskOf(files));
      ShapeParts();
      r := Some(frames[i]);
      Log(k, skip);
    }

    /**
     The page comes back in any case, but when it is not in the buffer and only the entry point can be evicted, the
     frames form no ring in any order afterwards.
     */
    method ReadPage(table: int, page: nat) returns (r: Option<Page>)
      requires Valid() && Exists(DiskOf(files), (table, page)) && page < PAGE_LIMIT
      modifies this, blocks, frames, files.Values
      ensures KeepsRing(old(C()), (table, page)) ==> Valid()
      ensures r.None? <==> (table, page) !in old(index) && AllPinned(old(C()))
      ensures r.Some? ==>
        && trace == old(trace) + [(table, page)] && r.value == View(old(C()), old(DiskOf(files)), (table, page))
        && ReadEnds(old(C()), old(DiskOf(files)), old(trace), {}, (table, page), C(), DiskOf(files))
      ensures r.None? ==> Valid() && C() == old(C()) && DiskOf(files) == old(DiskOf(files)) && trace == old(trace)
    {
      hide *;
      ValidIsGood();
      NothingSkipped(C());
      r := ReadSkipping(table, page, {});
      ValidIsGood();
    }

    lemma ValidIsGood()
      ensures Valid() <==> Good({})
    {}

    method SetFrame(i: nat, src: Page)
      requires Shape() && i < blocks.Length
      modifies blocks, frames
      ensures Shape() && C() == Overwritten(old(C()), i, src)
    {
      blocks[i] := blocks[i].(dirty := true);
      frames[i] := src;
    }

    /** buffer_write_page, of a page in the buffer. The result says whether it was pinned; if not, the source exits. */
    method WriteSkipping(table: int, page: nat, src: Page, ghost skip: set<Key>) returns (pinned: bool)
      requires Good(skip) && (table, page) in index
      modifies blocks, frames
      ensures pinned <==> Pins(old(C()), (table, page)) != 0
      ensures pinned ==>
        && Shape() && ValidCache(C()) && ViewChangedAt(old(C()), DiskOf(files), C(), (table, page), src)
        && SamePins(old(C()), C())
        && (Writable(DiskOf(files), (table, page), src) ==> Good(skip - {(table, page)}))
      ensures !pinned ==> Good(skip) && C() == old(C())
    {
      hide *;
      ghost var c, disk, k := C(), DiskOf(files), (table, page);
      GoodParts(skip);
      PinsOf(c, k);
      var i := FindIndex(blocks, count, entry, table, page, c);
      if blocks[i].pinned == 0 {
        return false;
      }
      WriteDone(c, disk, trace, skip, k, src);
      SetFrame(i, src);
      if Writable(disk, k, src) { GoodWhole(skip - {k}); }
      pinned := true;
    }

    /** Any page can be written; the buffer stays good if the page is allocated, or a header that follows the file's. */
    method WritePage(table: int, page: nat, src: Page) returns (pinned: bool)
      requires Valid() && (table, page) in index
      modifies blocks, frames
      ensures pinned <==> Pins(old(C()), (table, page)) != 0
      ensures pinned ==>
        && Shape() && ValidCache(C()) && ViewChangedAt(old(C()), DiskOf(files), C(), (table, page), src)
        && SamePins(old(C()), C())
        && (Writable(DiskOf(files), (table, page), src) ==> Valid())
      ensures !pinned ==> Valid() && C() == old(C())
    {
      hide *;
      ValidIsGood();
      pinned := WriteSkipping(table, page, src, {});
      assert {} - {(table, page)} == {};
      ValidIsGood();
    }

    method DropPin(i: nat)
      requires Shape() && i < blocks.Length
      modifies blocks
      ensures Shape() && C() == Unpinned(old(C()), i)
    {
      blocks[i] := blocks[i].(pinned := blocks[i].pinned - 1);
    }

    /** unpin_page, of a page in the buffer. The buffer stays good if and only if the page was pinned. */
    method UnpinPage(table: int, page: nat)
      requires Valid() && (table, page) in index
      modifies blocks
      ensures Shape() && (Valid() <==> Pins(old(C()), (table, page)) > 0)
      ensures C() == Unpinned(old(C()), old(index[(table, page)]))
      ensures Pins(old(C()), (table, page)) > 0 ==>
        SameView(old(C()), DiskOf(files), C(), DiskOf(files)) && PinnedOnce(C(), old(C()), (table, page))
    {
      hide *;
      ValidIsGood();
      ghost var c, disk, k := C(), DiskOf(files), (table, page);
      GoodParts({});
      PinsOf(c, k);
      var i := FindIndex(blocks, count, entry, table, page, c);
      DropPin(i);
      if Pins(c, k) > 0 {
        UnpinDone(c, disk, trace, {}, k);
        GoodWhole({});
      } else if Good({}) {
        GoodParts({});
        Overdrawn(c, k);
      }
      ValidIsGood();
    }

    /** flush_buffer: afterwards the files hold what the readers of the buffer see. */
    method Flush()
      requires Valid()
      modifies files.Values
      ensures Valid() && C() == old(C()) && SameView(C(), old(DiskOf(files)), C(), DiskOf(files))
      ensures forall k {:trigger Exists(DiskOf(files), k)} :: Exists(DiskOf(files), k) ==>
        Exists(old(DiskOf(files)), k) && DiskOf(files)[k.0].pages[k.1] == View(C(), old(DiskOf(files)), k)
    {
      hide *;
      ValidIsGood();
      ghost var c, disk := C(), DiskOf(files);
      GoodParts({});
      FlushStart(c, disk);
      SeparateFiles();
      for i := 0 to count
        invariant C() == c && Shape() && count == |c.order| && blocks[..] == c.blocks && frames[..] == c.frames
        invariant |c.order| <= |c.blocks| == |c.frames|
        invariant Coherent(c, DiskOf(files), {}) && SameView(c, disk, c, DiskOf(files)) && Flushed(c, DiskOf(files), i)
      {
        ghost var d := DiskOf(files);
        FlushNext(c, d, i);
        WriteBack(files, blocks[i], frames[i], c, {}, i);
        SameViewTrans(c, disk, c, d, c, DiskOf(files));
      }
      GoodWhole({});
      ValidIsGood();
      FlushEnd(c, disk, DiskOf(files));
    }

    lemma SizeParts()
      requires Shape()
      ensures |C().blocks| == blocks.Length >= 2
    {}

    lemma SeparateFiles()
      requires Shape()
      ensures Separate(files)
    {}

    /** file_alloc_page, seen from the buffer: the file's header is now ahead of a header in the buffer. */
    method AllocInFile(table: int) returns (p: nat)
      requires Valid() && table in files && FitsAlloc(files[table].State())
      modifies files[table]
      ensures Shape() && C() == old(C()) && trace == old(trace)
      ensures FileAllocated(old(DiskOf(files)), table, p, DiskOf(files))
      ensures Good(Excepted(C(), (table, 0)))
    {
      hide *;
      ghost var c, disk := C(), DiskOf(files);
      ValidIsGood();
      GoodParts({});
      SeparateFiles();
      p := AllocFrom(files, table, c);
      ExceptHeader(c, disk, table, p, DiskOf(files));
      GoodWhole(Excepted(c, (table, 0)));
    }

    /** Writes the header, and unpins the header and the new page. */
    method WriteAndUnpin(table: int, p: nat, header: Page, ghost skip: set<Key>)
        returns (ghost c3: Cache, ghost c4: Cache)
      requires Good(skip) && skip - {(table, 0)} == {} && p != 0 && IndexOk(C())
      requires (table, 0) in C().index && Pins(C(), (table, 0)) > 0 && Pins(C(), (table, p)) > 0
      requires Writable(DiskOf(files), (table, 0), header)
      modifies blocks, frames
      ensures Valid() && IndexOk(c3) && IndexOk(c4) && IndexOk(C())
      ensures ViewChangedAt(old(C()), DiskOf(files), c3, (table, 0), header) && SamePins(old(C()), c3)
      ensures SameView(c3, DiskOf(files), c4, DiskOf(files)) && PinnedOnce(c4, c3, (table, 0))
      ensures SameView(c4, DiskOf(files), C(), DiskOf(files)) && PinnedOnce(C(), c4, (table, p))
    {
      hide *;
      ghost var c2 := C();
      GoodParts(skip);
      var written := WriteSkipping(table, 0, header, skip);
      c3 := C();
      ValidIsGood();
      GoodParts({});
      PinnedAfterWrite(c2, c3, table, p);
      UnpinPage(table, 0);
      c4 := C();
      ValidIsGood();
      GoodParts({});
      PinnedAfterUnpin(c3, c4, table, p);
      UnpinPage(table, p);
      ValidIsGood();
      GoodParts({});
    }

    /**
     buffer_alloc_page, in runs that free no page. The file takes the page off its free list, and the header that
     the readers of the buffer see follows the file's. None stands for an exit when every frame is pinned.
     */
    method AllocPage(table: int) returns (r: Option<nat>)
      requires Valid() && table in files && FitsAlloc(files[table].State())
      requires (table, 0) !in index ==> Evictable(C())
      modifies this, blocks, frames, files.Values
      ensures 0 in old(files[table].State()).pages && PageFile.Count(old(files[table].State())) >= 1
      ensures
        var p := PageFile.NextPage(old(files[table].State()));
        && (r.None? <==> AllocFails(old(C()), (table, 0), (table, p)))
        && (r.Some? ==>
          r.value == p && Valid() && AllocDone(old(C()), old(DiskOf(files)), table, p, C(), DiskOf(files)))
    {
      hide *;
      ghost var c, disk, t := C(), DiskOf(files), table;
      FileIn(files, t);
      ValidIsGood();
      GoodParts({});
      var p := AllocInFile(table);
      ghost var d, skip, log := DiskOf(files), Excepted(c, (t, 0)), trace;
      AllocReadable(c, disk, t, p, d);
      FailsIs(c, (t, 0), (t, p));
      SkipGone(c, (t, 0));
      var ok, header, free;
      ghost var c1, d1;
      ok, header, free, c1, d1 := ReadBoth(table, p, skip);
      if !ok {
        return None;
      }
      ghost var c2, d2 := C(), DiskOf(files);
      AllocHeader(c, disk, t, p, d, log, c1, d1, c2, d2);
      var newHeader := MakeHeader(header, p, free);
      GoodParts(skip);
      ghost var c3, c4 := WriteAndUnpin(table, p, newHeader, skip);
      AllocFinish(c, disk, t, p, d, log, c1, d1, c2, d2, newHeader, c3, c4, C());
      r := Some(p);
    }

    /** Reads the header and then the page p. It fails if all frames are pinned before the first or the second read. */
    method ReadBoth(table: int, p: nat, ghost skip: set<Key>)
      returns (ok: bool, header: Page, free: Page, ghost c1: Cache, ghost d1: Disk)
      requires Good(skip) && skip <= {(table, 0)} && ((table, 0) !in index ==> Evictable(C()) && SkipPinned(C(), skip))
      requires Exists(DiskOf(files), (table, 0)) && Exists(DiskOf(files), (table, p)) && 0 < p < PAGE_LIMIT
      modifies this, blocks, frames, files.Values
      ensures !ok <==>
        ((table, 0) !in old(index) && AllPinned(old(C()))) || NoFrameLeft(old(C()), (table, 0), (table, p))
      ensures ok ==>
        && Good(skip) && ReadDone(old(C()), old(DiskOf(files)), old(trace), skip, (table, 0), c1, d1)
        && ReadDone(c1, d1, old(trace) + [(table, 0)], skip, (table, p), C(), DiskOf(files))
        && IndexOk(old(C())) && header == View(old(C()), old(DiskOf(files)), (table, 0))
        && IndexOk(c1) && Exists(d1, (table, p)) && free == View(c1, d1, (table, p))
    {
      hide *;
      ghost var c, d, log := C(), DiskOf(files), trace;
      GoodParts(skip);
      free := *;
      var first := ReadSkipping(table, 0, skip);
      c1, d1 := C(), DiskOf(files);
      if first.None? {
        return false, free, free, c1, d1;
      }
      KeepsIf(c, (table, 0));
      EndsDone(c, d, log, skip, (table, 0), c1, d1);
      SecondReadable(c, d, log, skip, table, p, c1, d1);
      NoFrameLeftIff(c, d, log, skip, (table, 0), c1, d1, (table, p));
      GoodParts(skip);
      KeepsIf(c1, (table, p));
      var second := ReadSkipping(table, p, skip);
      if second.None? {
        return false, first.value, free, c1, d1;
      }
      EndsDone(c1, d1, log + [(table, 0)], skip, (table, p), C(), DiskOf(files));
      ok, header, free := true, first.value, second.value;
    }
  }

  lemma NothingSkipped(c: Cache)
    ensures SkipPinned(c, {})
  {}

  lemma PinsOf(c: Cache, k: Key)
    requires IndexOk(c) && k in c.index
    ensures c.index[k] < |c.order| <= |c.blocks| && c.blocks[c.index[k]].pinned == Pins(c, k) >= 0
  {
    assert Indexed(c, c.index[k]);
  }

  lemma Overdrawn(c: Cache, k: Key)
    requires IndexOk(c) && k in c.index && Pins(c, k) <= 0
    ensures c.index[k] < |c.blocks| && !IndexOk(Unpinned(c, c.index[k]))
  {
    var c' := Unpinned(c, c.index[k]);
    assert IndexOk(c') ==> Indexed(c', c.index[k]);
  }

  lemma FlushStart(c: Cache, disk: Disk)
    requires IndexOk(c)
    ensures |c.order| <= |c.blocks| == |c.frames| && SameView(c, disk, c, disk) && Flushed(c, disk, 0)
  {}

  lemma FlushEnd(c: Cache, disk: Disk, d: Disk)
    requires ValidCache(c) && SameView(c, disk, c, d) && Flushed(c, d, |c.order|)
    ensures IndexOk(c)
    ensures forall k {:trigger Exists(d, k)} :: Exists(d, k) ==>
      Exists(disk, k) && d[k.0].pages[k.1] == View(c, disk, k)
  {
    forall k | Exists(d, k) ensures Exists(disk, k) && d[k.0].pages[k.1] == View(c, disk, k) { FlushedIsView(c, d, k); }
  }

  /** file_alloc_page of one of the files. */
  method AllocFrom(files: map<int, PageFile.DiskFile>, table: int, ghost c: Cache) returns (p: nat)
    requires Separate(files) && table in files && Coherent(c, DiskOf(files), {}) && FitsAlloc(files[table].State())
    modifies files[table]
    ensures FileAllocated(old(DiskOf(files)), table, p, DiskOf(files))
  {
    hide FreeHead, PageCount, RootPage, NextFree, FrameOk, PageFile.ValidFile, FileAllocated;
    ghost var disk := DiskOf(files);
    assert PageFile.ValidFile(disk[table]) && disk[table] == files[table].State();
    p := files[table].AllocPage();
    ghost var d := DiskOf(files);
    assert d[table] == files[table].State();
    forall t | t in files && t != table ensures d[t] == disk[t] { assert files[t] != files[table]; }
    assert d == disk[table := d[table]];
    FileStep(disk, table, p, d);
  }

  lemma FileStep(disk: Disk, t: int, p: nat, d: Disk)
    requires t in disk && t in d && d == disk[t := d[t]]
    requires PageFile.ValidFile(disk[t]) && PageFile.ValidFile(d[t]) && FitsAlloc(disk[t])
    requires d[t].used == disk[t].used + {p} && p !in disk[t].used
    requires disk[t].free != [] ==> d[t] == PageFile.Popped(disk[t]) && p == disk[t].free[0]
    requires disk[t].free == [] ==>
      var n := PageFile.Count(disk[t]);
      p == 2 * n - 1 && PageFile.Count(d[t]) == 2 * n && d[t].free == PageFile.Down(n, 2 * n - 1)
    requires forall q :: q in disk[t].pages && q != 0 ==> q in d[t].pages && d[t].pages[q] == disk[t].pages[q]
    requires RootPage(d[t].pages[0]) == RootPage(disk[t].pages[0]) && p in d[t].pages
      && FreeHead(d[t].pages[0]) == NextFree(d[t].pages[p])
    ensures FileAllocated(disk, t, p, d)
  {
    hide FreeHead, PageCount, RootPage, NextFree, SetFreeHead, PageFile.FreeList;
    PageFile.EmptyHead(d[t]);
    if disk[t].free != [] {
      PageFile.PopStep(disk[t]);
      assert p in disk[t].free;
    }
    assert 0 in disk[t].pages && forall q :: q in disk[t].pages ==> q in d[t].pages;
  }

  lemma FailsIs(c: Cache, h: Key, q: Key)
    ensures AllocFails(c, h, q) <==> (h !in c.index && AllPinned(c)) || NoFrameLeft(c, h, q)
  {}

  /** The header as buffer_alloc_page changes it. */
  method MakeHeader(header: Page, p: nat, free: Page) returns (h: Page)
    ensures h == NewHeader(header, p, NextFree(free))
  {
    h := header;
    if p >= PageCount(h) {
      h := SetPageCount(h, PageCount(h) * 2);
    }
    h := SetFreeHead(h, NextFree(free));
  }

  /** The header can be read: it is in the buffer, or nothing is excepted. */
  lemma AllocReadable(c: Cache, disk: Disk, t: int, p: nat, d: Disk)
    requires FileAllocated(disk, t, p, d)
    ensures Exists(d, (t, 0)) && Exists(d, (t, p)) && p < PAGE_LIMIT && 0 < PAGE_LIMIT && p != 0
    ensures t in disk && 0 in disk[t].pages && PageFile.Count(disk[t]) >= 1 && p == PageFile.NextPage(disk[t])
    ensures (t, 0) !in c.index ==> SkipPinned(c, Excepted(c, (t, 0)))
  {}

  /** The entry point, which is the header, is pinned, so the second read finds its victim elsewhere. */
  lemma SecondReadable(c: Cache, d: Disk, trace: seq<Key>, skip: set<Key>, t: int, p: nat, c1: Cache, d1: Disk)
    requires ReadDone(c, d, trace, skip, (t, 0), c1, d1) && skip <= {(t, 0)} && Exists(d, (t, p))
    ensures Exists(d1, (t, p)) && Evictable(c1) && SkipPinned(c1, skip)
  {
    hide Ring, Coherent, LeftFairly, Recent;
    ReadMakesEvictable(c, d, trace, skip, (t, 0), c1, d1);
    assert Exists(d1, (t, p)) <==> Exists(d, (t, p));
    forall f | 0 <= f < |c1.order| && f < |c1.blocks| && KeyOf(c1.blocks[f]) in skip ensures c1.blocks[f].pinned > 0 {
      assert Indexed(c1, f);
    }
  }

  lemma PinnedAfterWrite(c: Cache, c': Cache, t: int, p: nat)
    requires IndexOk(c) && SamePins(c, c') && Pins(c, (t, 0)) > 0 && Pins(c, (t, p)) > 0
    ensures (t, 0) in c'.index && Pins(c', (t, 0)) > 0 && Pins(c', (t, p)) > 0
  {}

  lemma PinnedAfterUnpin(c: Cache, c': Cache, t: int, p: nat)
    requires IndexOk(c) && IndexOk(c') && PinnedOnce(c', c, (t, 0)) && Pins(c, (t, p)) > 0 && p != 0
    ensures (t, p) in c'.index && Pins(c', (t, p)) > 0
  {}

  lemma FileIn(files: map<int, PageFile.DiskFile>, t: int)
    requires t in files
    ensures t in DiskOf(files) && DiskOf(files)[t] == files[t].State()
  {}

  lemma SkipGone(c: Cache, h: Key)
    ensures Excepted(c, h) - {h} == {} && Excepted(c, h) <= {h}
  {}

  lemma IndexedAt(c: Cache, k: Key)
    requires IndexOk(c) && k in c.index
    ensures c.index[k] < |c.order| <= |c.blocks| && KeyOf(c.blocks[c.index[k]]) == k
  {}

  lemma ReadKeeps(c: Cache, disk: Disk, trace: seq<Key>, skip: set<Key>, k: Key, c': Cache, disk': Disk)
    requires ReadMade(c, disk, trace, skip, k, c', disk')
    ensures k in c'.index
  {}

  lemma RefillMoves(c: Cache, x: nat, b: seq<Block>)
    requires ValidCache(c) && x < |c.order| && |c.order| >= 2 && SameLinks(c.blocks, b)
    ensures var i, entry := c.order[x], Last(c.order);
      i < |b| && b[i].prev < |b| && b[i].next < |b| && entry < |b| && |Unlinked(b, i)| == |b|
        && Unlinked(b, i)[entry].next < |b|
  {
    hide Ring, Moved, IndexOk;
    ReplacedRing(c, x, b);
  }

  /** The entry point is the last frame of the ring and no other. */
  lemma OrderAt(c: Cache, x: nat)
    requires ValidCache(c) && x < |c.order|
    ensures c.order[x] == Last(c.order) <==> x + 1 == |c.order|
  {
    hide IndexOk, Ring;
    RingParts(c.blocks, c.order);
    DistinctAt(c.order, x, |c.order| - 1);
  }

  lemma TouchedIs(c: Cache, x: nat, b: seq<Block>)
    requires ValidCache(c) && x < |c.order| && c.order[x] < |c.blocks|
    requires var i := c.order[x]; b == c.blocks[i := c.blocks[i].(pinned := c.blocks[i].pinned + 1)]
    ensures c.order[x] == Last(c.order) <==> x + 1 == |c.order|
    ensures x + 1 == |c.order| ==> Touched(c, x) == Cache(b, c.frames, c.index, c.order)
    ensures x + 1 < |c.order| ==>
      var i := c.order[x];
      && Movable(b, Last(c.order), i)
      && Touched(c, x) == Cache(Moved(b, Last(c.order), i), c.frames, c.index, Without(c.order, x) + [i])
  {
    hide Ring, IndexOk, Movable, Moved;
    OrderAt(c, x);
    if x + 1 < |c.order| { ReplacedRing(c, x, b); }
  }

  ghost function Position(c: Cache, i: nat): (x: nat)
    requires ValidCache(c) && i < |c.order|
    ensures x < |c.order| && c.order[x] == i
  {
    assert i in c.order;
    var x :| 0 <= x < |c.order| && c.order[x] == i;
    x
  }

  lemma PinnedIs(c: Cache, i: nat, b: seq<Block>)
    requires i < |c.blocks| && b == c.blocks[i := c.blocks[i].(pinned := c.blocks[i].pinned + 1)]
    ensures Pinned(c, i) == Cache(b, c.frames, c.index, c.order)
  {}

  lemma LoadFacts(c: Cache, disk: Disk, trace: seq<Key>, skip: set<Key>, k: Key, c': Cache, disk': Disk)
    requires LoadMade(c, disk, trace, skip, k, c', disk')
    ensures Framed(c') && AtEntry(c', k) && c'.order != [] && Last(c'.order) < |c'.blocks| && k in c'.index
      && c'.index[k] == Last(c'.order)
    ensures ReadMade(c, disk, trace, skip, k, Pinned(c', Last(c'.order)), disk')
  {}

  lemma ReadFacts(c: Cache, disk: Disk, trace: seq<Key>, skip: set<Key>, k: Key, c': Cache, disk': Disk)
    requires ReadEnds(c, disk, trace, skip, k, c', disk') && Exists(disk, k)
    ensures (KeepsRing(c, k) ==> ValidCache(c')) && Coherent(c', disk', skip) && Recent(c', trace + [k])
    ensures k in c'.index && c'.order != [] && c'.index[k] == Last(c'.order) < |c'.blocks| == |c'.frames|
    ensures c'.frames[c'.index[k]] == View(c, disk, k)
  {
    assert Exists(disk', k);
  }
}
