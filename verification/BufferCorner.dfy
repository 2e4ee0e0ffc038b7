/**
 How a buffer of any size loses its ring in ordinary use: its frames are filled by reads, the page read last is
 unpinned, and another page is read.
 */
module BufferCorner {
  import opened Sequences
  import opened PageBytes
  import F = PageFile
  import opened BufferRing
  import opened BufferCache
  import opened BufferRoom
  import opened PageBuffer

  /** The pages 0 to i - 1 of table t have been read in order into an empty buffer, and are pinned once each. */
  ghost predicate ReadUpTo(c: Cache, disk: Disk, t: int, i: nat) {
    && IndexOk(c) && |c.order| == i
    && (forall q: Key {:trigger q in c.index} :: q in c.index <==> q.0 == t && q.1 < i)
    && (forall q: Key {:trigger q in c.index} :: q in c.index ==> Pins(c, q) == 1)
    && (i > 0 ==> (t, i - 1) in c.index && c.index[(t, i - 1)] == Last(c.order))
    && t in disk && forall p: nat :: p < 2560 ==> p in disk[t].pages
  }

  lemma ReadNext(c: Cache, disk: Disk, trace: seq<Key>, t: int, i: nat, c': Cache, disk': Disk)
    requires ReadUpTo(c, disk, t, i) && i < |c.blocks| && ReadDone(c, disk, trace, {}, (t, i), c', disk')
    ensures ReadUpTo(c', disk', t, i + 1)
  {
    hide Ring, Coherent, Recent, LeftFairly, IndexOk, Pins, SameView;
    PinsStep(c, t, i, c');
    forall p: nat | p < 2560 ensures p in disk'[t].pages { assert Exists(disk, (t, p)); }
  }

  lemma PinsStep(c: Cache, t: int, i: nat, c': Cache)
    requires IndexOk(c) && IndexOk(c') && PinnedOnce(c, c', (t, i)) && c'.index.Keys == c.index.Keys + {(t, i)}
    requires forall q: Key {:trigger q in c.index} :: q in c.index <==> q.0 == t && q.1 < i
    requires forall q: Key {:trigger q in c.index} :: q in c.index ==> Pins(c, q) == 1
    ensures forall q: Key {:trigger q in c'.index} :: q in c'.index <==> q.0 == t && q.1 < i + 1
    ensures forall q: Key {:trigger q in c'.index} :: q in c'.index ==> Pins(c', q) == 1
  {
    hide IndexOk;
    forall q: Key ensures q in c'.index <==> q.0 == t && q.1 < i + 1 {
      assert q in c.index <==> q.0 == t && q.1 < i;
    }
    forall q: Key | q in c'.index ensures Pins(c', q) == 1 {
      assert Pins(c', q) == Pins(c, q) + if q == (t, i) then 1 else 0;
    }
  }

  lemma ReadReady(c: Cache, disk: Disk, t: int, i: nat)
    requires ReadUpTo(c, disk, t, i) && ValidCache(c) && i < |c.blocks| && i < 2560
    ensures Exists(disk, (t, i)) && i < PAGE_LIMIT && (t, i) !in c.index && Evictable(c) && !AllPinned(c)
  {
    hide Ring;
    forall x | 0 <= x < |c.order| ensures c.order[x] < |c.blocks| { assert c.order[x] in c.order; }
  }

  lemma NothingRead(c: Cache, disk: Disk, t: int, file: F.File)
    requires IndexOk(c) && c.order == [] && c.index == map[] && disk == map[t := file]
    requires F.ValidFile(file) && F.Count(file) == 2560
    ensures ReadUpTo(c, disk, t, 0)
  {
    hide PageCount, FreeHead, F.FreeList;
  }

  lemma LastPinned(c: Cache, disk: Disk, t: int, n: nat)
    requires ReadUpTo(c, disk, t, n) && n > 0
    ensures IndexOk(c) && (t, n - 1) in c.index && Pins(c, (t, n - 1)) == 1 && |c.order| == n && (t, n) !in c.index
    ensures c.index[(t, n - 1)] == Last(c.order) < |c.blocks| && c.blocks[Last(c.order)].pinned == 1
    ensures t in disk && (n < 2560 ==> n in disk[t].pages)
  {
    assert c.index[(t, n - 1)] < |c.order|;
    assert Pins(c, (t, n - 1)) == 1;
  }

  lemma OthersPinned(c: Cache, disk: Disk, t: int, n: nat, x: nat)
    requires ReadUpTo(c, disk, t, n) && ValidCache(c) && x < n - 1
    ensures c.order[x] < |c.blocks| && c.blocks[c.order[x]].pinned == 1 && c.order[x] != Last(c.order)
  {
    RingParts(c.blocks, c.order);
    DistinctAt(c.order, x, n - 1);
    hide Ring, Distinct;
    assert c.order[x] in c.order && Indexed(c, c.order[x]);
  }

  /** Without the last pin only the entry point can be evicted. */
  lemma LastUnpinned(c: Cache, disk: Disk, t: int, n: nat, c': Cache)
    requires ReadUpTo(c, disk, t, n) && ValidCache(c) && 0 < n == |c.blocks| && (t, n - 1) in c.index
    requires c.index[(t, n - 1)] < |c.blocks| && c' == Unpinned(c, c.index[(t, n - 1)])
    ensures Cornered(c') && (t, n) !in c'.index
  {
    hide Ring, IndexOk, Pins, ReadUpTo, ValidCache;
    LastPinned(c, disk, t, n);
    forall x | 0 <= x < |c.order| - 1 ensures c.order[x] < |c.blocks| && c'.blocks[c.order[x]].pinned != 0 {
      OthersPinned(c, disk, t, n, x);
    }
  }

  /** The buffer is good, but only its entry point can be evicted; and there is a page to read. */
  ghost predicate InCorner(buf: Buffer, table: int, page: nat)
    reads buf, buf.blocks, buf.frames, buf.files.Values
  {
    && Exists(DiskOf(buf.files), (table, page)) && page < PAGE_LIMIT && (table, page) !in buf.index
    && Cornered(buf.C()) && buf.Valid()
  }

  lemma EmptyOrder(c: Cache)
    requires IndexOk(c) && c.index == map[]
    ensures c.order == []
  {
    assert c.order != [] ==> Indexed(c, 0);
  }

  /** A buffer over one new file. */
  method Start(numBuf: int, table: int) returns (buf: Buffer)
    requires numBuf < 2560
    ensures fresh(buf) && fresh(buf.blocks) && fresh(buf.frames) && fresh(buf.files.Values)
    ensures buf.Valid() && ReadUpTo(buf.C(), DiskOf(buf.files), table, 0)
    ensures 10 <= buf.blocks.Length < 2560
  {
    hide *;
    var file := new F.DiskFile();
    var files := map[table := file];
    file.Parts();
    NewState(file);
    OneFile(files, table, file);
    buf := new Buffer(numBuf, files);
    Sizes();
    buf.ValidIsGood();
    buf.GoodParts({});
    EmptyOrder(buf.C());
    NothingRead(buf.C(), DiskOf(buf.files), table, file.State());
  }

  lemma NewState(file: F.DiskFile)
    requires file.Valid() && 0 in file.pages && PageCount(file.pages[0]) == 2560
    ensures F.ValidFile(file.State()) && 0 in file.State().pages && F.Count(file.State()) == 2560
  {}

  lemma Sizes()
    ensures 2560 < PAGE_LIMIT
  {}

  /** Each frame is filled by a read, and the page read last is unpinned. */
  method Corner(numBuf: int, table: int) returns (buf: Buffer)
    requires numBuf < 2560
    ensures fresh(buf) && fresh(buf.blocks) && fresh(buf.frames) && fresh(buf.files.Values)
    ensures InCorner(buf, table, buf.blocks.Length)
  {
    hide *;
    buf := Start(numBuf, table);
    var n := buf.blocks.Length;
    for i := 0 to n
      invariant buf.Valid() && ReadUpTo(buf.C(), DiskOf(buf.files), table, i)
    {
      ghost var c, disk, log := buf.C(), DiskOf(buf.files), buf.trace;
      buf.ValidIsGood();
      buf.GoodParts({});
      Sizes();
      ReadReady(c, disk, table, i);
      KeepsIf(c, (table, i));
      var r := buf.ReadPage(table, i);
      EndsDone(c, disk, log, {}, (table, i), buf.C(), DiskOf(buf.files));
      ReadNext(c, disk, log, table, i, buf.C(), DiskOf(buf.files));
    }
    ghost var c, disk := buf.C(), DiskOf(buf.files);
    buf.ValidIsGood();
    buf.GoodParts({});
    LastPinned(c, disk, table, n);
    buf.UnpinPage(table, n - 1);
    buf.ValidIsGood();
    buf.GoodParts({});
    LastUnpinned(c, disk, table, n, buf.C());
    CornerWhole(buf, disk, table, n);
  }

  lemma CornerWhole(buf: Buffer, disk: Disk, table: int, n: nat)
    requires buf.Valid() && Cornered(buf.C()) && disk == DiskOf(buf.files) && (table, n) !in buf.index
    requires table in disk && n < 2560 && n in disk[table].pages
    ensures InCorner(buf, table, n)
  {
    hide buf.Valid, Cornered;
  }

  /** Reading one more page gives its bytes, and the frames form no ring in any order afterwards. */
  method LoseRing(numBuf: int, table: int) returns (buf: Buffer, page: nat, r: Option<Page>)
    requires numBuf < 2560
    ensures r.Some? && (table, page) in buf.C().index && !FormsRing(buf.C().blocks, buf.C().order)
  {
    hide *;
    buf := Corner(numBuf, table);
    page := buf.blocks.Length;
    ghost var c, disk, log := buf.C(), DiskOf(buf.files), buf.trace;
    CornerParts(buf, table, page);
    buf.ValidIsGood();
    buf.GoodParts({});
    buf.SizeParts();
    CornerLoses(c, (table, page));
    r := buf.ReadPage(table, page);
    EndsLost(c, disk, log, {}, (table, page), buf.C(), DiskOf(buf.files));
  }

  lemma CornerParts(buf: Buffer, table: int, page: nat)
    requires InCorner(buf, table, page)
    ensures buf.Valid() && Exists(DiskOf(buf.files), (table, page)) && page < PAGE_LIMIT && (table, page) !in buf.index
    ensures Cornered(buf.C())
  {
    hide buf.Valid, Cornered;
  }

  lemma CornerLoses(c: Cache, k: Key)
    requires ValidCache(c) && Cornered(c) && |c.blocks| >= 2 && k !in c.index
    ensures !KeepsRing(c, k) && !AllPinned(c)
  {
    CorneredBreaks(c);
    hide Ring, IndexOk;
    assert c.order[|c.order| - 1] in c.order;
  }

  lemma EndsLost(c: Cache, disk: Disk, trace: seq<Key>, skip: set<Key>, k: Key, c': Cache, disk': Disk)
    requires ReadEnds(c, disk, trace, skip, k, c', disk') && !KeepsRing(c, k)
    ensures k in c'.index && !FormsRing(c'.blocks, c'.order)
  {
    hide Ring, FormsRing, KeepsRing;
  }
}
