/**
 The page file of file.cc: pages numbered from 0, where page 0 is the header and the free pages form a list
 through their first field. The file itself is a map from page numbers to pages; reads and writes of it do not
 fail. Which pages are allocated is nowhere stored, so the class remembers it as a ghost field.
 */
module PageFile {
  import opened Sequences
  import opened PageBytes

  const INITIAL_PAGES := 2560

  // The offset of a page is computed in 32-bit integers, so a file has no more pages than this.
  const MAX_PAGES := 0x8_0000

  type Pages = map<nat, Page>

  // ----- The free list -----

  /** free lists, in order, the pages on the free list: the head is in the header, 0 ends the list. */
  ghost predicate FreeList(pages: Pages, free: seq<nat>) {
    && 0 in pages && FreeHead(pages[0]) == LinkAt(free, 0)
    && forall i :: 0 <= i < |free| ==> free[i] in pages && NextFree(pages[free[i]]) == LinkAt(free, i + 1)
  }

  function LinkAt(free: seq<nat>, i: nat): nat {
    if i < |free| then free[i] else 0
  }

  datatype File = File(pages: Pages, free: seq<nat>, used: set<nat>)

  ghost predicate ValidFile(f: File) {
    && 0 in f.pages && 1 <= PageCount(f.pages[0]) <= MAX_PAGES
    && (forall p :: p in f.pages <==> 0 <= p < PageCount(f.pages[0]))
    && FreeList(f.pages, f.free) && Partition(f.free, f.used, PageCount(f.pages[0]))
  }

  /** The pages 1 to n - 1 are divided into the free ones, each listed once, and the used ones. */
  ghost predicate Partition(free: seq<nat>, used: set<nat>, n: nat) {
    && Distinct(free)
    && (forall p :: p in free || p in used <==> 1 <= p < n)
    && (forall p :: p in free ==> p !in used)
  }

  function Count(f: File): nat
    requires 0 in f.pages
  {
    PageCount(f.pages[0])
  }

  /** Following the links from p, n steps. */
  ghost function Walk(pages: Pages, p: nat, n: nat): seq<nat>
    decreases n
  {
    if n == 0 || p !in pages then [] else [p] + Walk(pages, NextFree(pages[p]), n - 1)
  }

  /** From the header, the links lead through every free page once and then to 0. */
  lemma {:induction false} WalkIsFree(pages: Pages, free: seq<nat>, i: nat)
    requires FreeList(pages, free) && i <= |free|
    ensures Walk(pages, LinkAt(free, i), |free| - i) == free[i..]
    decreases |free| - i
  {
    hide FreeHead, NextFree, PageCount, SetFreeHead, SetNextFree, SetPageCount;
    if i < |free| { WalkIsFree(pages, free, i + 1); }
  }

  /** The file determines its free list. */
  lemma {:induction false} FreeListUnique(f: File, g: File, i: nat)
    requires ValidFile(f) && ValidFile(g) && f.pages == g.pages
    requires i <= |f.free| && i <= |g.free| && f.free[..i] == g.free[..i]
    ensures f.free == g.free && f.used == g.used
    decreases |f.free| - i
  {
    hide FreeHead, NextFree, PageCount, SetFreeHead, SetNextFree, SetPageCount;
    assert i > 0 ==> f.free[i - 1] == f.free[..i][i - 1] == g.free[..i][i - 1] == g.free[i - 1];
    assert LinkAt(f.free, i) == LinkAt(g.free, i);
    assert i < |f.free| ==> f.free[i] in f.free;
    assert i < |g.free| ==> g.free[i] in g.free;
    if i < |f.free| {
      assert f.free[..i + 1] == f.free[..i] + [f.free[i]] == g.free[..i + 1];
      FreeListUnique(f, g, i + 1);
    } else {
      assert f.free == f.free[..i] && g.free == g.free[..i];
    }
  }

  // ----- Taking, returning and adding pages -----

  /** The pages lo to hi - 1, downwards. */
  function Down(lo: nat, hi: nat): (s: seq<nat>)
    requires lo <= hi
    ensures |s| == hi - lo && forall i :: 0 <= i < |s| ==> s[i] == hi - 1 - i
  {
    if lo == hi then [] else [hi - 1] + Down(lo, hi - 1)
  }

  ghost function Popped(f: File): File
    requires ValidFile(f) && f.free != []
  {
    var p := f.free[0];
    File(f.pages[0 := SetFreeHead(f.pages[0], NextFree(f.pages[p]))], f.free[1..], f.used + {p})
  }

  /** The page that an allocation takes: the head of the free list, or the last one after doubling. */
  function NextPage(f: File): nat
    requires 0 in f.pages && Count(f) >= 1
  {
    if f.free != [] then f.free[0] else 2 * Count(f) - 1
  }

  lemma PopPartition(free: seq<nat>, used: set<nat>, n: nat)
    requires Partition(free, used, n) && free != []
    ensures Partition(free[1..], used + {free[0]}, n)
  {
    assert forall p :: p in free <==> p == free[0] || p in free[1..];
  }

  lemma PopList(pages: Pages, free: seq<nat>, header: Page)
    requires FreeList(pages, free) && free != [] && 0 !in free && FreeHead(header) == NextFree(pages[free[0]])
    ensures FreeList(pages[0 := header], free[1..])
  {
    hide FreeHead, NextFree;
    var pages', free' := pages[0 := header], free[1..];
    forall i | 0 <= i < |free'| ensures free'[i] in pages' && NextFree(pages'[free'[i]]) == LinkAt(free', i + 1) {
      assert free'[i] == free[i + 1] && free[i + 1] in free;
    }
  }

  lemma PopStep(f: File)
    requires ValidFile(f) && f.free != []
    ensures ValidFile(Popped(f)) && Count(Popped(f)) == Count(f)
  {
    hide FreeHead, NextFree, PageCount, SetFreeHead, SetNextFree, SetPageCount;
    var p := f.free[0];
    assert p in f.free;
    var next := NextFree(f.pages[p]);
    assert next == LinkAt(f.free, 1) && (|f.free| > 1 ==> f.free[1] in f.free);
    HeaderFields(f.pages[0], next);
    PopPartition(f.free, f.used, Count(f));
    PopList(f.pages, f.free, SetFreeHead(f.pages[0], next));
  }

  ghost function Pushed(f: File, p: nat): File
    requires 0 in f.pages && p in f.pages
  {
    File(f.pages[0 := SetFreeHead(f.pages[0], p)][p := SetNextFree(f.pages[p], FreeHead(f.pages[0]))],
         [p] + f.free, f.used - {p})
  }

  lemma PushPartition(free: seq<nat>, used: set<nat>, n: nat, p: nat)
    requires Partition(free, used, n) && p in used
    ensures Partition([p] + free, used - {p}, n)
  {
    assert forall q :: q in [p] + free <==> q == p || q in free;
  }

  lemma PushList(pages: Pages, free: seq<nat>, p: nat, header: Page, page: Page)
    requires FreeList(pages, free) && p in pages && p != 0 && 0 !in free && p !in free
    requires FreeHead(header) == p && NextFree(page) == LinkAt(free, 0)
    ensures FreeList(pages[0 := header][p := page], [p] + free)
  {
    hide FreeHead, NextFree;
    var pages', free' := pages[0 := header][p := page], [p] + free;
    forall i | 0 <= i < |free'| ensures free'[i] in pages' && NextFree(pages'[free'[i]]) == LinkAt(free', i + 1) {
      if i > 0 { assert free'[i] == free[i - 1] && free[i - 1] in free; }
    }
  }

  lemma PushStep(f: File, p: nat)
    requires ValidFile(f) && p in f.used
    ensures ValidFile(Pushed(f, p)) && Count(Pushed(f, p)) == Count(f)
  {
    hide FreeHead, NextFree, PageCount, SetFreeHead, SetNextFree, SetPageCount;
    var head := FreeHead(f.pages[0]);
    assert head == LinkAt(f.free, 0) && (f.free != [] ==> f.free[0] in f.free);
    HeaderFields(f.pages[0], p);
    HeaderFields(f.pages[p], head);
    PushPartition(f.free, f.used, Count(f), p);
    PushList(f.pages, f.free, p, SetFreeHead(f.pages[0], p), SetNextFree(f.pages[p], head));
  }

  /** pages' is f with the free pages up to twice the count linked in front of the free list, header aside. */
  ghost predicate LinkedTwice(f: File, pages': Pages)
    requires 0 in f.pages
  {
    var n := Count(f);
    && (forall p :: p in pages' <==> p in f.pages || n <= p < 2 * n)
    && (forall p :: p in f.pages ==> pages'[p] == f.pages[p])
    && (forall p :: n <= p < 2 * n ==> NextFree(pages'[p]) == (if p == n then FreeHead(f.pages[0]) else p - 1))
  }

  ghost function Grown(f: File, pages': Pages): File
    requires 0 in f.pages
  {
    var n := Count(f);
    File(pages'[0 := SetPageCount(SetFreeHead(f.pages[0], Minus(2 * n, 1)), 2 * n)], Down(n, 2 * n) + f.free, f.used)
  }

  function Minus(a: nat, b: nat): nat {
    if a >= b then a - b else 0
  }

  lemma DownMembers(lo: nat, hi: nat, p: nat)
    requires lo <= hi
    ensures p in Down(lo, hi) <==> lo <= p < hi
  {
    if lo <= p < hi { assert Down(lo, hi)[hi - 1 - p] == p; }
  }

  lemma GrowPartition(free: seq<nat>, used: set<nat>, n: nat)
    requires Partition(free, used, n) && n >= 1
    ensures Partition(Down(n, 2 * n) + free, used, 2 * n)
  {
    var free' := Down(n, 2 * n) + free;
    forall p: nat ensures p in free' <==> n <= p < 2 * n || p in free { DownMembers(n, 2 * n, p); }
    forall i, j | 0 <= i < j < |free'| ensures free'[i] != free'[j] {
      if j >= n { assert free[j - n] in free; }
      if i >= n { assert free'[i] == free[i - n] && free'[j] == free[j - n]; }
    }
  }

  lemma GrowList(f: File, pages': Pages, header: Page)
    requires ValidFile(f) && LinkedTwice(f, pages') && FreeHead(header) == Minus(2 * Count(f), 1)
    ensures FreeList(pages'[0 := header], Down(Count(f), 2 * Count(f)) + f.free)
  {
    hide FreeHead, NextFree, PageCount, Distinct;
    var n := Count(f);
    var free', pages'' := Down(n, 2 * n) + f.free, pages'[0 := header];
    assert |Down(n, 2 * n)| == n && free'[0] == 2 * n - 1;
    forall i | 0 <= i < |free'| ensures free'[i] in pages'' && NextFree(pages''[free'[i]]) == LinkAt(free', i + 1) {
      if i >= n {
        assert free'[i] == f.free[i - n] && f.free[i - n] in f.free;
        assert LinkAt(free', i + 1) == LinkAt(f.free, i - n + 1);
      } else {
        assert free'[i] == 2 * n - 1 - i;
        assert LinkAt(free', i + 1) == if i + 1 < n then 2 * n - 2 - i else LinkAt(f.free, 0);
      }
    }
  }

  lemma GrowStep(f: File, pages': Pages)
    requires ValidFile(f) && LinkedTwice(f, pages') && 2 * Count(f) <= MAX_PAGES
    ensures ValidFile(Grown(f, pages')) && Count(Grown(f, pages')) == 2 * Count(f)
  {
    hide FreeHead, NextFree, PageCount, SetFreeHead, SetNextFree, SetPageCount, FreeList, Partition;
    var n := Count(f);
    HeaderFields(f.pages[0], 2 * n - 1);
    HeaderFields(SetFreeHead(f.pages[0], 2 * n - 1), 2 * n);
    GrowPartition(f.free, f.used, n);
    GrowList(f, pages', SetPageCount(SetFreeHead(f.pages[0], Minus(2 * n, 1)), 2 * n));
  }

  /** The page freed last is the next one allocated, and doing both changes neither list. */
  lemma FreeThenAllocate(f: File, p: nat)
    requires ValidFile(f) && p in f.used
    ensures ValidFile(Pushed(f, p))
    ensures var g := Pushed(f, p); g.free[0] == p && Popped(g).free == f.free && Popped(g).used == f.used
  {
    hide ValidFile;
    PushStep(f, p);
  }

  /** How many pages a file of n has after growing far enough to hold page p. */
  function GrownCount(n: nat, p: nat): (m: nat)
    requires n >= 1
    ensures p < m && n <= m && (p < n ==> m == n)
    decreases if p < n then 0 else p - n + 1
  {
    if p < n then n else GrownCount(2 * n, p)
  }

  function Doubled(n: nat, j: nat): nat {
    if j == 0 then n else 2 * Doubled(n, j - 1)
  }

  lemma {:induction false} DoubledFirst(n: nat, j: nat)
    ensures Doubled(2 * n, j) == 2 * Doubled(n, j) >= 2 * n
  {
    if j > 0 { DoubledFirst(n, j - 1); }
  }

  /** The file has doubled j times, and j - 1 times would not have been enough. */
  lemma {:induction false} GrownCountIs(n: nat, p: nat, j: nat)
    requires n >= 1 && p < Doubled(n, j) && (j > 0 ==> Doubled(n, j - 1) <= p)
    ensures GrownCount(n, p) == Doubled(n, j)
    decreases j
  {
    if j > 0 {
      DoubledFirst(n, j - 1);
      if j > 1 { DoubledFirst(n, j - 2); }
      assert n <= p by { if j > 1 { assert Doubled(n, j - 1) >= 2 * n; } }
      GrownCountIs(2 * n, p, j - 1);
    }
  }

  /** MAX_PAGES is where the offset of a page no longer fits into a 32-bit integer. */
  lemma OffsetFits(p: nat)
    ensures p < MAX_PAGES <==> p * PAGE_SIZE < 0x8000_0000
  {}

  lemma {:induction false} DownJoins(a: nat, b: nat, c: nat)
    requires a <= b <= c
    ensures Down(b, c) + Down(a, b) == Down(a, c)
    decreases c - b
  {
    if b < c { DownJoins(a, b, c - 1); }
  }

  // ----- The file -----

  /** An empty file that has just been linked. */
  lemma FreshFile(pages: Pages, n: nat)
    requires 1 <= n <= MAX_PAGES && (forall p: nat :: p in pages <==> p < n)
    requires FreeHead(pages[0]) == n - 1 && PageCount(pages[0]) == n
    requires forall p :: 1 <= p < n ==> NextFree(pages[p]) == p - 1
    ensures ValidFile(File(pages, Down(1, n), {}))
  {
    hide FreeHead, PageCount, NextFree;
    forall p: nat ensures p in Down(1, n) <==> 1 <= p < n { DownMembers(1, n, p); }
    assert FreeList(pages, Down(1, n));
  }

  /** Pages that are not free may be rewritten, the header as long as it names the same list and count. */
  lemma RewriteStep(f: File, p: nat, page: Page)
    requires ValidFile(f) && (p in f.used || p == 0)
    requires p == 0 ==> FreeHead(page) == FreeHead(f.pages[0]) && PageCount(page) == PageCount(f.pages[0])
    ensures ValidFile(File(f.pages[p := page], f.free, f.used))
  {
    RewriteIff(f, p, page);
    hide FreeHead, NextFree, PageCount, FreeList;
  }

  /** Bytes that leave the free list as it is: any for an allocated page, the same link for a free one. */
  ghost predicate Rewritable(f: File, p: nat, page: Page)
    requires 0 in f.pages && p in f.pages
  {
    && (p == 0 ==> FreeHead(page) == FreeHead(f.pages[0]) && PageCount(page) == PageCount(f.pages[0]))
    && (p in f.free ==> NextFree(page) == NextFree(f.pages[p]))
  }

  /** Files with the same pages have the same page count. */
  lemma SameCount(f: File, g: File)
    requires ValidFile(f) && ValidFile(g) && f.pages.Keys == g.pages.Keys
    ensures Count(f) == Count(g)
  {
    hide PageCount, FreeList, Partition;
    var m, n := PageCount(f.pages[0]), PageCount(g.pages[0]);
    assert (m in f.pages <==> m in g.pages) && (n in f.pages <==> n in g.pages);
  }

  /** A page may be rewritten if and only if the new bytes leave the free list and the page count as they are. */
  lemma RewriteIff(f: File, p: nat, page: Page)
    requires ValidFile(f) && p in f.pages
    ensures 0 in f.pages
    ensures ValidFile(File(f.pages[p := page], f.free, f.used)) <==> Rewritable(f, p, page)
  {
    var g := File(f.pages[p := page], f.free, f.used);
    if Rewritable(f, p, page) { RewriteKeeps(f, p, page); }
    if ValidFile(g) {
      hide FreeHead, NextFree, PageCount, Partition;
      assert g.pages.Keys == f.pages.Keys;
      SameCount(f, g);
      if p in f.free {
        var i :| 0 <= i < |f.free| && f.free[i] == p;
        assert NextFree(f.pages[p]) == LinkAt(f.free, i + 1);
      }
    }
  }

  lemma RewriteKeeps(f: File, p: nat, page: Page)
    requires ValidFile(f) && p in f.pages && Rewritable(f, p, page)
    ensures ValidFile(File(f.pages[p := page], f.free, f.used))
  {
    hide FreeHead, NextFree, PageCount, Partition;
    assert forall i :: 0 <= i < |f.free| ==> f.free[i] in f.free;
  }

  function HeaderWith(header: Page, head: nat, count: nat): Page {
    SetPageCount(SetFreeHead(header, head), count)
  }

  lemma HeaderWithFields(header: Page, head: nat, count: nat)
    requires head < U64 && count < U64
    ensures var h := HeaderWith(header, head, count);
      FreeHead(h) == head && PageCount(h) == count && RootPage(h) == RootPage(header)
  {
    hide FreeHead, PageCount, RootPage, SetFreeHead, SetPageCount;
    HeaderFields(header, head);
    HeaderFields(SetFreeHead(header, head), count);
  }

  /** Taking the last page of a file that has just doubled: the header as the source writes it. */
  lemma DoubleStep(f: File, pages': Pages)
    requires ValidFile(f) && f.free == [] && LinkedTwice(f, pages') && 2 * Count(f) <= MAX_PAGES
    ensures
      var n := Count(f);
      var h := HeaderWith(f.pages[0], 2 * n - 2, 2 * n);
      && ValidFile(File(pages'[0 := h], Down(n, 2 * n - 1), f.used + {2 * n - 1})) && PageCount(h) == 2 * n
      && FreeHead(h) == NextFree(pages'[2 * n - 1]) && RootPage(h) == RootPage(f.pages[0])
  {
    hide FreeHead, NextFree, PageCount, RootPage, SetFreeHead, SetNextFree, SetPageCount, FreeList, Partition,
      HeaderWith;
    var n := Count(f);
    var g, h := Grown(f, pages'), HeaderWith(f.pages[0], 2 * n - 2, 2 * n);
    GrowStep(f, pages');
    PopStep(g);
    HeaderWithFields(f.pages[0], 2 * n - 2, 2 * n);
    assert g.free == Down(n, 2 * n) && g.free[0] == 2 * n - 1 && g.free[1..] == Down(n, 2 * n - 1);
    var p := Popped(g);
    assert FreeHead(f.pages[0]) == 0 by { EmptyHead(f); }
    assert NextFree(pages'[2 * n - 1]) == 2 * n - 2;
    HeaderFields(g.pages[0], 2 * n - 2);
    RewriteStep(p, 0, h);
    assert p.pages[0 := h] == pages'[0 := h];
  }

  lemma EmptyHead(f: File)
    requires ValidFile(f)
    ensures FreeHead(f.pages[0]) == (if f.free == [] then 0 else f.free[0]) < MAX_PAGES
    ensures f.free != [] ==> f.free[0] in f.pages && f.free[0] != 0 && f.free[0] !in f.used
  {
    hide FreeHead, NextFree, PageCount;
    if f.free != [] { assert f.free[0] in f.free; }
  }

  lemma PoppedParts(f: File)
    requires ValidFile(f) && f.free != []
    ensures f.free[0] in f.pages
    ensures var h := SetFreeHead(f.pages[0], NextFree(f.pages[f.free[0]]));
      && Popped(f) == File(f.pages[0 := h], f.free[1..], f.used + {f.free[0]})
      && RootPage(h) == RootPage(f.pages[0]) && FreeHead(h) == NextFree(f.pages[f.free[0]])
  {
    hide FreeHead, NextFree, PageCount, RootPage, SetFreeHead;
    assert f.free[0] in f.free && (|f.free| > 1 ==> f.free[1] in f.free);
    HeaderFields(f.pages[0], NextFree(f.pages[f.free[0]]));
  }

  lemma Linked(f: File, pages: Pages)
    requires 0 in f.pages
    requires
      var n := PageCount(f.pages[0]);
      && (forall p :: p in pages <==> p in f.pages || n <= p < 2 * n)
      && (forall p :: p in f.pages && !(n <= p < 2 * n) ==> pages[p] == f.pages[p])
      && (forall p :: n <= p < 2 * n ==> NextFree(pages[p]) == (if p == n then FreeHead(f.pages[0]) else p - 1))
      && (forall p :: p in f.pages ==> p < n)
    ensures LinkedTwice(f, pages)
  {}

  lemma PushedParts(f: File, p: nat)
    requires ValidFile(f) && p in f.used
    ensures p in f.pages && p != 0 && FreeHead(f.pages[0]) < MAX_PAGES
    ensures Pushed(f, p)
      == File(f.pages[0 := SetFreeHead(f.pages[0], p)][p := SetNextFree(f.pages[p], FreeHead(f.pages[0]))],
              [p] + f.free, f.used - {p})
    ensures var h := SetFreeHead(f.pages[0], p);
      RootPage(h) == RootPage(f.pages[0]) && PageCount(h) == PageCount(f.pages[0])
  {
    hide FreeHead, NextFree, PageCount, RootPage, SetFreeHead, SetNextFree, FreeList;
    EmptyHead(f);
    HeaderFields(f.pages[0], p);
  }

  lemma GrownParts(f: File, pages: Pages)
    requires ValidFile(f) && LinkedTwice(f, pages) && 2 * Count(f) <= MAX_PAGES
    ensures var n := Count(f);
      var h := SetPageCount(SetFreeHead(f.pages[0], 2 * n - 1), 2 * n);
      && Grown(f, pages) == File(pages[0 := h], Down(n, 2 * n) + f.free, f.used)
      && PageCount(h) == 2 * n && RootPage(h) == RootPage(f.pages[0])
    ensures FreeHead(f.pages[0]) < MAX_PAGES
    ensures forall q :: q in f.pages ==> q in pages && pages[q] == f.pages[q]
  {
    hide FreeHead, NextFree, PageCount, RootPage, SetFreeHead, SetNextFree, SetPageCount, FreeList, Partition;
    HeaderFields(f.pages[0], 2 * Count(f) - 1);
    HeaderFields(SetFreeHead(f.pages[0], 2 * Count(f) - 1), 2 * Count(f));
    EmptyHead(f);
  }

  lemma Grow0(n: nat, p: nat)
    requires n >= 1
    ensures n <= GrownCount(n, p) && (p < n ==> GrownCount(n, p) == n)
  {}

  lemma Grow1(n: nat, p: nat)
    requires 1 <= n <= p
    ensures GrownCount(n, p) == GrownCount(2 * n, p) >= 2 * n
  {}

  lemma DownEmpty(n: nat, free: seq<nat>)
    ensures Down(n, n) + free == free
  {}

  lemma DownMore(n: nat, m: nat, free: seq<nat>)
    requires n <= m
    ensures Down(m, 2 * m) + (Down(n, m) + free) == Down(n, 2 * m) + free
  {
    DownJoins(n, m, 2 * m);
  }

  /** pages' is pages with the free pages lo to i - 1 linked downwards to tail. */
  ghost predicate LinkedUpTo(pages: Pages, pages': Pages, lo: nat, i: nat, tail: nat) {
    && (forall p :: p in pages' <==> p in pages || lo <= p < i)
    && (forall p :: p in pages && !(lo <= p < i) ==> pages'[p] == pages[p])
    && (forall p :: lo <= p < i ==> NextFree(pages'[p]) == (if p == lo then tail else p - 1))
  }

  lemma NothingLinked(pages: Pages, lo: nat, tail: nat)
    ensures LinkedUpTo(pages, pages, lo, lo, tail)
  {}

  lemma LinkNext(pages: Pages, pages': Pages, lo: nat, i: nat, tail: nat, page: Page)
    requires LinkedUpTo(pages, pages', lo, i, tail) && lo <= i < MAX_PAGES && tail < MAX_PAGES
    ensures
      var next: nat := if i == lo then tail else i - 1;
      LinkedUpTo(pages, pages'[i := SetNextFree(page, next)], lo, i + 1, tail)
  {
    hide NextFree, SetNextFree;
    HeaderFields(page, if i == lo then tail else i - 1);
  }

  lemma LinkedAll(pages: Pages, pages': Pages, lo: nat, hi: nat, tail: nat)
    requires LinkedUpTo(pages, pages', lo, hi, tail)
    ensures forall p :: p in pages' <==> p in pages || lo <= p < hi
    ensures forall p :: p in pages && !(lo <= p < hi) ==> pages'[p] == pages[p]
    ensures forall p :: lo <= p < hi ==> NextFree(pages'[p]) == (if p == lo then tail else p - 1)
  {}

  class DiskFile {
    var pages: Pages
    ghost var free: seq<nat>
    ghost var used: set<nat>

    ghost function State(): File
      reads this
    {
      File(pages, free, used)
    }

    ghost predicate Valid()
      reads this
    {
      ValidFile(State())
    }

    /** Writes the free pages lo to hi - 1, each linked to the one before it, the first one to tail. */
    method LinkPages(lo: nat, hi: nat, tail: nat)
      requires 1 <= lo <= hi <= MAX_PAGES && tail < MAX_PAGES
      modifies `pages
      ensures forall p :: p in pages <==> p in old(pages) || lo <= p < hi
      ensures forall p :: p in old(pages) && !(lo <= p < hi) ==> pages[p] == old(pages[p])
      ensures forall p :: lo <= p < hi ==> NextFree(pages[p]) == (if p == lo then tail else p - 1)
    {
      hide *;
      ghost var before := pages;
      NothingLinked(before, lo, tail);
      for i := lo to hi
        invariant LinkedUpTo(before, pages, lo, i, tail)
      {
        var page: Page := *;
        var next: nat := if i == lo then tail else i - 1;
        LinkNext(before, pages, lo, i, tail, page);
        pages := pages[i := SetNextFree(page, next)];
      }
      LinkedAll(before, pages, lo, hi, tail);
    }

    /** file_open_table_file, when the file does not exist yet. */
    constructor ()
      ensures Valid() && free == Down(1, 2560) && used == {} && RootPage(pages[0]) == 0
      ensures PageCount(pages[0]) == 2560
    {
      pages := map[];
      new;
      hide FreeHead, NextFree, PageCount, RootPage, SetRootPage, HeaderWith, ValidFile, Down;
      LinkPages(1, INITIAL_PAGES, 0);
      var header: Page := *;
      HeaderFields(header, 0);
      header := SetRootPage(header, 0);
      HeaderWithFields(header, INITIAL_PAGES - 1, INITIAL_PAGES);
      pages := pages[0 := HeaderWith(header, INITIAL_PAGES - 1, INITIAL_PAGES)];
      free, used := Down(1, INITIAL_PAGES), {};
      assert FreeHead(pages[0]) == INITIAL_PAGES - 1 && PageCount(pages[0]) == INITIAL_PAGES;
      assert forall p: nat :: p in pages <==> p < INITIAL_PAGES;
      assert forall p :: 1 <= p < INITIAL_PAGES ==> NextFree(pages[p]) == p - 1;
      FreshFile(pages, INITIAL_PAGES);
      Whole();
    }

    lemma WholeIff()
      ensures Valid() <==> ValidFile(File(pages, free, used))
      ensures State() == File(pages, free, used)
    {}

    lemma Whole()
      requires ValidFile(File(pages, free, used))
      ensures Valid() && State() == File(pages, free, used)
    {}

    lemma Parts()
      requires Valid()
      ensures ValidFile(State()) && State() == File(pages, free, used) && 0 in pages
      ensures Count(State()) == PageCount(pages[0]) && 1 <= PageCount(pages[0]) <= MAX_PAGES
      ensures forall p :: p in pages <==> 0 <= p < PageCount(pages[0])
      ensures forall p :: p in used ==> 1 <= p < PageCount(pages[0])
    {}

    /** file_alloc_page: takes the head of the free list, or doubles the file and takes its last page. */
    method AllocPage() returns (p: nat)
      requires Valid() && (free == [] ==> 2 * Count(State()) <= MAX_PAGES)
      modifies this
      ensures Valid() && used == old(used) + {p} && p !in old(used) && p != 0 && p in pages
      ensures old(free) != [] ==> State() == Popped(old(State())) && p == old(free)[0]
      ensures old(free) == [] ==>
        var n := Count(old(State()));
        p == 2 * n - 1 && free == Down(n, 2 * n - 1) && Count(State()) == 2 * n
      ensures forall q :: q in old(pages) && q != 0 ==> q in pages && pages[q] == old(pages[q])
      ensures RootPage(pages[0]) == RootPage(old(pages)[0]) && FreeHead(pages[0]) == NextFree(pages[p])
    {
      hide *;
      Parts();
      ghost var f := State();
      EmptyHead(f);
      var header := pages[0];
      var next, count := FreeHead(header), PageCount(header);
      if next != 0 {
        PopStep(f);
        PoppedParts(f);
        header := SetFreeHead(header, NextFree(pages[next]));
        pages := pages[0 := header];
        free, used := free[1..], used + {next};
        p := next;
        Whole();
      } else {
        LinkPages(count, 2 * count, FreeHead(header));
        Linked(f, pages);
        DoubleStep(f, pages);
        header := HeaderWith(header, 2 * count - 2, 2 * count);
        pages := pages[0 := header];
        p := 2 * count - 1;
        free, used := Down(count, 2 * count - 1), used + {p};
        Whole();
        Parts();
      }
    }

    /** file_free_page: the page becomes the head of the free list. */
    method FreePage(p: nat)
      requires Valid() && p in used
      modifies this
      ensures Valid() && State() == Pushed(old(State()), p)
      ensures free == [p] + old(free) && used == old(used) - {p} && pages.Keys == old(pages).Keys
      ensures forall q :: q in pages && q != 0 && q != p ==> pages[q] == old(pages)[q]
      ensures 0 in pages && RootPage(pages[0]) == RootPage(old(pages)[0])
      ensures PageCount(pages[0]) == PageCount(old(pages)[0])
    {
      hide *;
      Parts();
      ghost var f := State();
      PushStep(f, p);
      PushedParts(f, p);
      var header := pages[0];
      var next := FreeHead(header);
      var target := SetNextFree(pages[p], next);
      header := SetFreeHead(header, p);
      pages := pages[0 := header];
      pages := pages[p := target];
      free, used := [p] + free, used - {p};
      Whole();
    }

    /** file_read_page: a page beyond the end makes the file double until it holds the page. */
    method ReadPage(p: nat) returns (dest: Page)
      requires Valid() && GrownCount(Count(State()), p) <= MAX_PAGES
      modifies this
      ensures Valid() && Count(State()) == GrownCount(Count(old(State())), p)
      ensures p in pages && dest == pages[p]
      ensures used == old(used) && free == Down(Count(old(State())), Count(State())) + old(free)
      ensures p < Count(old(State())) ==> State() == old(State())
      ensures forall q :: q in old(pages) && q != 0 ==> q in pages && pages[q] == old(pages[q])
      ensures RootPage(pages[0]) == RootPage(old(pages)[0])
    {
      hide *;
      Parts();
      ghost var n0 := Count(State());
      Grow0(n0, p);
      DownEmpty(n0, free);
      var header := pages[0];
      var count := PageCount(header);
      while p >= count
        invariant Valid() && 0 in pages && count == PageCount(pages[0]) && header == pages[0] && n0 <= count
        invariant GrownCount(count, p) == GrownCount(n0, p) <= MAX_PAGES && 1 <= count
        invariant used == old(used) && free == Down(n0, count) + old(free)
        invariant p < n0 ==> State() == old(State())
        invariant count > n0 ==> p >= n0
        invariant forall q :: q in old(pages) && q != 0 ==> q in pages && pages[q] == old(pages[q])
        invariant RootPage(pages[0]) == RootPage(old(pages)[0])
        decreases GrownCount(n0, p) - count
      {
        Parts();
        ghost var f := State();
        Grow1(count, p);
        EmptyHead(f);
        LinkPages(count, 2 * count, FreeHead(header));
        Linked(f, pages);
        GrowStep(f, pages);
        GrownParts(f, pages);
        DownMore(n0, count, old(free));
        header := SetPageCount(SetFreeHead(header, 2 * count - 1), 2 * count);
        pages := pages[0 := header];
        free := Down(count, 2 * count) + free;
        Whole();
        Parts();
        count := PageCount(header);
      }
      Grow0(count, p);
      Parts();
      dest := pages[p];
    }

    /** file_write_page, of a page that the file holds. */
    method WritePage(p: nat, src: Page)
      requires Valid() && p in pages
      modifies this
      ensures State() == File(old(pages)[p := src], old(free), old(used))
      ensures Valid() <==> Rewritable(old(State()), p, src)
    {
      hide *;
      Parts();
      RewriteIff(State(), p, src);
      pages := pages[p := src];
      WholeIff();
    }
  }
}
