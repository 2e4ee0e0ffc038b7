/**
 The pages of the tables as the readers of the buffer see them: for every table a page file whose bytes are the
 buffer's view. Reading, writing and unpinning a page, and allocating one, are equations about these files and about
 the pins, in any buffer with a few frames to spare.
 */
module TablePages {
  import opened Sequences
  import opened PageBytes
  import F = PageFile
  import opened BufferCache
  import opened BufferRoom
  import opened PageBuffer

  // ----- The view as a file -----

  /** The file of table t with the bytes that the buffer shows. */
  ghost function SeenFile(c: Cache, disk: Disk, t: int): F.File
    requires IndexOk(c) && t in disk
  {
    F.File(map p | p in disk[t].pages :: View(c, disk, (t, p)), disk[t].free, disk[t].used)
  }

  ghost function SeenFiles(c: Cache, disk: Disk): map<int, F.File> {
    if IndexOk(c) then map t | t in disk :: SeenFile(c, disk, t) else map[]
  }

  /** Free pages are seen as the disk has them, and the header with the same list and count: what is seen is a file. */
  lemma SeenIsFile(c: Cache, disk: Disk, t: int)
    requires ValidCache(c) && Coherent(c, disk, {}) && t in disk
    ensures F.ValidFile(SeenFile(c, disk, t)) && 0 in disk[t].pages && F.Count(disk[t]) >= 1
    ensures F.Count(SeenFile(c, disk, t)) == F.Count(disk[t])
    ensures Agrees(SeenFile(c, disk, t).pages[0], disk[t].pages[0])
  {
    hide FreeHead, PageCount, NextFree, F.Partition;
    var f, g := disk[t], SeenFile(c, disk, t);
    assert F.ValidFile(f);
    assert Agrees(g.pages[0], f.pages[0]) by {
      AgreesReflexive(f.pages[0]);
      if (t, 0) in c.index { assert FrameOk(c, disk, {}, c.index[(t, 0)]); }
    }
    forall i | 0 <= i < |f.free| ensures f.free[i] in g.pages && g.pages[f.free[i]] == f.pages[f.free[i]] {
      FreeSeen(c, disk, t, f.free[i]);
    }
  }

  lemma FreeSeen(c: Cache, disk: Disk, t: int, p: nat)
    requires ValidCache(c) && Coherent(c, disk, {}) && t in disk && F.ValidFile(disk[t]) && p in disk[t].free
    ensures p in disk[t].pages && View(c, disk, (t, p)) == disk[t].pages[p]
  {
    hide FreeHead, PageCount, NextFree, Agrees;
    if (t, p) in c.index { assert FrameOk(c, disk, {}, c.index[(t, p)]); }
  }

  lemma SameSeen(c: Cache, disk: Disk, c': Cache, disk': Disk)
    requires SameView(c, disk, c', disk') && disk'.Keys == disk.Keys
    requires forall t {:trigger disk'[t]} :: t in disk ==> SameBooks(disk[t], disk'[t])
    ensures SeenFiles(c', disk') == SeenFiles(c, disk)
  {
    hide IndexOk, View;
    forall t | t in disk ensures SeenFile(c', disk', t) == SeenFile(c, disk, t) {
      assert SameBooks(disk[t], disk'[t]);
      forall p | p in disk[t].pages ensures View(c', disk', (t, p)) == View(c, disk, (t, p)) {
        assert Exists(disk, (t, p));
      }
    }
  }

  /** The file with other bytes on page n. */
  ghost function Rewritten(f: F.File, n: nat, page: Page): F.File {
    F.File(f.pages[n := page], f.free, f.used)
  }

  lemma SeenRewritten(c: Cache, disk: Disk, c': Cache, t: int, n: nat, src: Page)
    requires ViewChangedAt(c, disk, c', (t, n), src) && t in disk && n in disk[t].pages
    ensures t in SeenFiles(c, disk)
    ensures SeenFiles(c', disk) == SeenFiles(c, disk)[t := Rewritten(SeenFiles(c, disk)[t], n, src)]
  {
    hide IndexOk, View;
    forall u | u in disk
      ensures SeenFile(c', disk, u) == if u == t then Rewritten(SeenFile(c, disk, t), n, src) else SeenFile(c, disk, u)
    {
      forall p | p in disk[u].pages
        ensures View(c', disk, (u, p)) == if (u, p) == (t, n) then src else View(c, disk, (u, p))
      {
        assert Exists(disk, (u, p));
      }
    }
  }

  /** g is f with page p taken off the free list; the root and all other pages are as they were. */
  ghost predicate Allocated(f: F.File, g: F.File, p: nat) {
    && F.ValidFile(f) && F.ValidFile(g) && Taken(f, g, p) && RootPage(g.pages[0]) == RootPage(f.pages[0])
    && forall q :: q in f.pages && q != 0 ==> g.pages[q] == f.pages[q]
  }

  lemma OthersSeen(c: Cache, disk: Disk, t: int, p: nat, c': Cache, disk': Disk, u: int)
    requires AllocDone(c, disk, t, p, c', disk') && u in disk && u != t
    ensures u in disk' && SeenFile(c', disk', u) == SeenFile(c, disk, u)
  {
    hide IndexOk, View, PageCount, RootPage, Agrees, Taken;
    assert SameBooks(disk[u], disk'[u]);
    forall q | q in disk[u].pages ensures View(c', disk', (u, q)) == View(c, disk, (u, q)) {
      assert Exists(disk, (u, q));
    }
  }

  lemma TakenSeen(c: Cache, disk: Disk, t: int, p: nat, c': Cache, disk': Disk)
    requires AllocDone(c, disk, t, p, c', disk') && t in disk
    requires F.ValidFile(SeenFile(c, disk, t)) && F.ValidFile(SeenFile(c', disk', t))
    requires F.Count(SeenFile(c, disk, t)) == F.Count(disk[t]) && F.Count(SeenFile(c', disk', t)) == F.Count(disk'[t])
    ensures Allocated(SeenFile(c, disk, t), SeenFile(c', disk', t), p)
  {
    hide IndexOk, View, PageCount, RootPage, Agrees, F.FreeList, F.Partition;
    var f, g := SeenFile(c, disk, t), SeenFile(c', disk', t);
    forall q | q in f.pages && q != 0 ensures g.pages[q] == f.pages[q] { assert Exists(disk, (t, q)); }
    assert f.pages.Keys == disk[t].pages.Keys && g.pages.Keys == disk'[t].pages.Keys;
  }

  lemma SeenAllocated(c: Cache, disk: Disk, t: int, p: nat, c': Cache, disk': Disk)
    requires ValidCache(c) && Coherent(c, disk, {}) && ValidCache(c') && Coherent(c', disk', {})
    requires t in disk && AllocDone(c, disk, t, p, c', disk')
    ensures t in SeenFiles(c, disk) && t in SeenFiles(c', disk')
    ensures SeenFiles(c', disk') == SeenFiles(c, disk)[t := SeenFiles(c', disk')[t]]
    ensures Allocated(SeenFiles(c, disk)[t], SeenFiles(c', disk')[t], p)
  {
    hide SeenFile, SameBooks, View, Taken, Coherent, RootPage, PageCount;
    assert disk'.Keys == disk.Keys;
    SeenIsFile(c, disk, t);
    SeenIsFile(c', disk', t);
    TakenSeen(c, disk, t, p, c', disk');
    hide Allocated;
    forall u | u in disk && u != t ensures SeenFile(c', disk', u) == SeenFile(c, disk, u) {
      OthersSeen(c, disk, t, p, c', disk', u);
    }
  }

  // ----- The buffer's tables -----

  ghost function Seen(buf: Buffer): map<int, F.File>
    reads buf, buf.blocks, buf.frames, buf.files.Values
  {
    SeenFiles(buf.C(), DiskOf(buf.files))
  }

  /** The buffer is good, and its pins are those of P. */
  ghost predicate Ready(buf: Buffer, P: multiset<Key>)
    reads buf, buf.blocks, buf.frames, buf.files.Values
  {
    buf.Valid() && Pinning(buf.C(), P)
  }

  lemma ReadyParts(buf: Buffer, P: multiset<Key>)
    requires Ready(buf, P)
    ensures buf.Valid() && buf.Good({}) && Pinning(buf.C(), P) && buf.blocks.Length == |buf.C().blocks|
    ensures ValidCache(buf.C()) && Coherent(buf.C(), DiskOf(buf.files), {}) && buf.C().index == buf.index
    ensures DiskOf(buf.files).Keys == buf.files.Keys == Seen(buf).Keys
    ensures Seen(buf) == SeenFiles(buf.C(), DiskOf(buf.files))
  {
    buf.ValidIsGood();
    buf.GoodParts({});
  }

  lemma ReadyWhole(buf: Buffer, P: multiset<Key>)
    requires buf.Valid() && Pinning(buf.C(), P)
    ensures Ready(buf, P)
  {}

  lemma SeenAt(c: Cache, disk: Disk, t: int)
    requires ValidCache(c) && t in disk
    ensures SeenFiles(c, disk).Keys == disk.Keys && SeenFiles(c, disk)[t] == SeenFile(c, disk, t)
    ensures SeenFile(c, disk, t).pages.Keys == disk[t].pages.Keys
    ensures SeenFile(c, disk, t).free == disk[t].free && SeenFile(c, disk, t).used == disk[t].used
    ensures forall n :: n in disk[t].pages ==>
      Exists(disk, (t, n)) && SeenFile(c, disk, t).pages[n] == View(c, disk, (t, n))
  {}

  /** buffer_read_page into a page of the caller's. */
  method ReadInto(buf: Buffer, table: int, n: nat, ghost P: multiset<Key>) returns (page: array<Byte>)
    requires Ready(buf, P) && |P| + 2 <= buf.blocks.Length
    requires table in Seen(buf) && n in Seen(buf)[table].pages && n < PAGE_LIMIT
    modifies buf, buf.blocks, buf.frames, buf.files.Values
    ensures Ready(buf, P + multiset{(table, n)}) && Seen(buf) == old(Seen(buf))
    ensures fresh(page) && page.Length == PAGE_SIZE && page[..] == old(Seen(buf)[table].pages[n])
  {
    hide *;
    ghost var c, disk, log := buf.C(), DiskOf(buf.files), buf.trace;
    ReadyParts(buf, P);
    SeenAt(c, disk, table);
    SpareFrames(c, P);
    KeepsIf(c, (table, n));
    var r := buf.ReadPage(table, n);
    EndsDone(c, disk, log, {}, (table, n), buf.C(), DiskOf(buf.files));
    ReadSeen(c, disk, log, (table, n), buf.C(), DiskOf(buf.files), P);
    ReadyWhole(buf, P + multiset{(table, n)});
    ReadyParts(buf, P + multiset{(table, n)});
    var p: Page := r.value;
    page := new Byte[PAGE_SIZE](i requires 0 <= i < PAGE_SIZE => p[i]);
  }

  lemma ReadSeen(c: Cache, disk: Disk, trace: seq<Key>, k: Key, c': Cache, disk': Disk, P: multiset<Key>)
    requires ReadDone(c, disk, trace, {}, k, c', disk') && Pinning(c, P)
    ensures Pinning(c', P + multiset{k}) && SeenFiles(c', disk') == SeenFiles(c, disk)
  {
    hide ValidCache, Coherent, Recent, LeftFairly, SeenFiles, Pins;
    SameSeen(c, disk, c', disk');
  }

  /** Any bytes for an allocated page; for the header, bytes with the list head and page count that it has. */
  ghost predicate MayWrite(f: F.File, n: nat, src: Page) {
    0 in f.pages && n in f.pages && (n == 0 || n in f.used) && (n == 0 ==> Agrees(src, f.pages[0]))
  }

  /** buffer_write_page, of a page that the caller has pinned. */
  method WriteFrom(buf: Buffer, table: int, n: nat, src: Page, ghost P: multiset<Key>)
    requires Ready(buf, P) && (table, n) in P && table in Seen(buf) && MayWrite(Seen(buf)[table], n, src)
    modifies buf.blocks, buf.frames
    ensures Ready(buf, P)
    ensures Seen(buf) == old(Seen(buf))[table := Rewritten(old(Seen(buf)[table]), n, src)]
  {
    hide *;
    ghost var c, disk := buf.C(), DiskOf(buf.files);
    ReadyParts(buf, P);
    SeenAt(c, disk, table);
    SeenIsFile(c, disk, table);
    SeenWritable(c, disk, table, n, src, P);
    var pinned := buf.WritePage(table, n, src);
    WriteSeen(c, disk, buf.C(), table, n, src, P);
    ReadyWhole(buf, P);
    ReadyParts(buf, P);
  }

  lemma SeenWritable(c: Cache, disk: Disk, t: int, n: nat, src: Page, P: multiset<Key>)
    requires Pinning(c, P) && (t, n) in P && t in disk && 0 in disk[t].pages && MayWrite(SeenFile(c, disk, t), n, src)
    requires Agrees(SeenFile(c, disk, t).pages[0], disk[t].pages[0])
    ensures (t, n) in c.index && Pins(c, (t, n)) != 0 && Writable(disk, (t, n), src) && n in disk[t].pages
  {}

  lemma WriteSeen(c: Cache, disk: Disk, c': Cache, t: int, n: nat, src: Page, P: multiset<Key>)
    requires ViewChangedAt(c, disk, c', (t, n), src) && SamePins(c, c') && Pinning(c, P) && t in disk
      && n in disk[t].pages
    ensures Pinning(c', P) && t in SeenFiles(c, disk)
    ensures SeenFiles(c', disk) == SeenFiles(c, disk)[t := Rewritten(SeenFiles(c, disk)[t], n, src)]
  {
    SeenRewritten(c, disk, c', t, n, src);
  }

  /** unpin_page: the pins that remain are those of P. */
  method Unpin(buf: Buffer, table: int, n: nat, ghost P: multiset<Key>)
    requires Ready(buf, P + multiset{(table, n)})
    modifies buf.blocks
    ensures Ready(buf, P) && Seen(buf) == old(Seen(buf))
  {
    hide *;
    ghost var c, disk, Q := buf.C(), DiskOf(buf.files), P + multiset{(table, n)};
    ReadyParts(buf, Q);
    PinnedSeen(c, Q, (table, n));
    buf.UnpinPage(table, n);
    UnpinSeen(c, disk, buf.C(), (table, n), P);
    ReadyWhole(buf, P);
    ReadyParts(buf, P);
  }

  lemma PinnedSeen(c: Cache, P: multiset<Key>, k: Key)
    requires Pinning(c, P) && k in P
    ensures k in c.index && Pins(c, k) > 0
  {}

  lemma UnpinSeen(c: Cache, disk: Disk, c': Cache, k: Key, P: multiset<Key>)
    requires SameView(c, disk, c', disk) && PinnedOnce(c', c, k) && Pinning(c, P + multiset{k})
    ensures Pinning(c', P) && SeenFiles(c', disk) == SeenFiles(c, disk)
  {
    SameSeen(c, disk, c', disk);
  }

  /** buffer_alloc_page, in runs that free no page. */
  method TakePage(buf: Buffer, table: int, ghost P: multiset<Key>) returns (p: nat)
    requires Ready(buf, P) && |P| + 3 <= buf.blocks.Length && table in Seen(buf) && FitsAlloc(Seen(buf)[table])
    modifies buf, buf.blocks, buf.frames, buf.files.Values
    ensures Ready(buf, P) && table in Seen(buf) && Seen(buf) == old(Seen(buf))[table := Seen(buf)[table]]
    ensures Allocated(old(Seen(buf)[table]), Seen(buf)[table], p)
  {
    hide *;
    ghost var c, disk := buf.C(), DiskOf(buf.files);
    ReadyParts(buf, P);
    SeenAt(c, disk, table);
    SeenIsFile(c, disk, table);
    FileIn(buf.files, table);
    FitsSeen(c, disk, table);
    AllocSucceeds(c, P, (table, 0), (table, F.NextPage(disk[table])));
    var r := buf.AllocPage(table);
    p := r.value;
    buf.ValidIsGood();
    buf.GoodParts({});
    AllocPins(c, disk, table, p, buf.C(), DiskOf(buf.files), P);
    SeenAllocated(c, disk, table, p, buf.C(), DiskOf(buf.files));
    ReadyWhole(buf, P);
    ReadyParts(buf, P);
  }

  lemma FitsSeen(c: Cache, disk: Disk, t: int)
    requires IndexOk(c) && t in disk && 0 in disk[t].pages && FitsAlloc(SeenFile(c, disk, t))
    requires F.Count(SeenFile(c, disk, t)) == F.Count(disk[t])
    ensures FitsAlloc(disk[t])
  {}

  lemma AllocPins(c: Cache, disk: Disk, t: int, p: nat, c': Cache, disk': Disk, P: multiset<Key>)
    requires AllocDone(c, disk, t, p, c', disk') && Pinning(c, P)
    ensures Pinning(c', P)
  {}
}
