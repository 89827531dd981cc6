/**
 Runs of pages: mapping a run of frames page by page, and taking or giving back the frames
 behind it.  Reference definitions for pmm_alloc_custom, pmm_free and mmap.
 */
module PageRanges {
  import opened Wrappers
  import opened Frames
  import opened PageTables
  import opened Mapping
  import opened DirtyTables

  /** The page with number `n`. */
  function PageNo(n: nat): Page {
    PageOf(n * 0x1000)
  }

  const PAGES: nat := 0x10_0000_0000     // 2^36 pages

  /** The number of a page. */
  function Number(p: Page): nat {
    ((p.i4 * 512 + p.i3) * 512 + p.i2) * 512 + p.i1
  }

  lemma NumberOf(a: nat)
    requires a < PAGES
    ensures Number(PageNo(a)) == a
  {
    assert a * 0x1000 / 0x1000 == a;
    assert a * 0x1000 / 0x20_0000 == a / 512;
    assert a * 0x1000 / 0x4000_0000 == a / 512 / 512;
    assert a * 0x1000 / 0x80_0000_0000 == a / 512 / 512 / 512;
  }

  lemma PageOfByte(va: nat)
    ensures PageOf(va) == PageNo(va / 0x1000)
  {
    var n := va / 0x1000;
    SameDigits(va, n * 0x1000, n);
  }

  /** A page at or above 8 MiB. */
  predicate HighPage(p: Page) {
    p.i4 != 0 || p.i3 != 0 || p.i2 >= 4
  }

  lemma HighPageMappable(s: Space, p: Page)
    requires HighPage(p)
    ensures Mappable(s, p)
  {
    forall f: nat | Pinned(s, f) ensures p != LowPage(f) {
      LowPageDigits(f);
    }
  }

  lemma LowPageDigits(f: nat)
    requires f < LOW
    ensures !HighPage(LowPage(f))
  {
  }

  lemma PageNoHigh(a: nat)
    requires LOW <= a < PAGES
    ensures HighPage(PageNo(a))
  {
    NumberOf(a);
  }

  /** One page to map and the frame it is to lead to. */
  datatype Job = Job(page: Page, frame: nat)

  /** The pages page, page+1, .. to the frames frame, frame+1, .. */
  function PageRun(page: nat, frame: nat, n: nat): (js: seq<Job>)
    ensures |js| == n && forall i: nat :: i < n ==> js[i] == Job(PageNo(page + i), frame + i)
  {
    seq(n, i requires 0 <= i < n => Job(PageNo(page + i), frame + i))
  }

  /** None of the pages is the window's or that of a low table. */
  ghost predicate AllMappable(s: Space, js: seq<Job>) {
    forall i: nat :: i < |js| ==> Mappable(s, js[i].page)
  }

  lemma PageRunHigh(s: Space, page: nat, frame: nat, n: nat)
    requires LOW <= page && page + n <= PAGES
    ensures AllMappable(s, PageRun(page, frame, n))
  {
    var js := PageRun(page, frame, n);
    forall i: nat | i < n ensures Mappable(s, js[i].page) {
      PageNoHigh(page + i);
      HighPageMappable(s, js[i].page);
    }
  }

  // ---------- frames ----------

  /** Taking frames keeps the invariant. */
  lemma TakeKeepsInv(s: Space, n: nat)
    requires Inv(s)
    ensures Inv(s.(pmm := Alloc(s.pmm, n).1))
    ensures Alloc(s.pmm, n).1.frames == s.pmm.frames && s.pmm.reserved <= Alloc(s.pmm, n).1.reserved
  {
    if n > 0 { AllocNextFit(s.pmm, n); }
    PmmShrinks(s, Alloc(s.pmm, n).1);
  }

  lemma PmmShrinks(s: Space, p: Pmm)
    requires Inv(s) && Ready(p) && p.frames == s.pmm.frames && s.pmm.reserved <= p.reserved
    ensures Inv(s.(pmm := p))
  {
    var s' := s.(pmm := p);
    forall f: nat | Pinned(s', f) ensures HwFrame(s'.mem, s'.kernel, LowPage(f)) == Some(f) {
      assert Pinned(s, f);
    }
  }

  /** Giving back high frames that are no tables keeps it, too. */
  lemma GiveKeepsInv(s: Space, f: nat, n: nat)
    requires Inv(s) && forall k :: k in Touched(f, n) ==> k !in s.tables && LOW <= k
    ensures Inv(s.(pmm := Release(s.pmm, f, n)))
  {
    var s' := s.(pmm := Release(s.pmm, f, n));
    forall k: nat | Pinned(s', k) ensures Pinned(s, k) {
    }
  }

  // ---------- mapping a run of pages ----------

  /** The first `n` jobs, one after the other. */
  ghost function MapAll(s: Space, r: nat, js: seq<Job>, n: nat, flags: Flags): Space
    requires n <= |js|
  {
    if n == 0 then s
    else Map(MapAll(s, r, js, n - 1, flags), r, js[n - 1].page, Entry(js[n - 1].frame, flags))
  }

  /** Which page leads where once the first `n` jobs are done; a later job wins. */
  ghost function Graph(js: seq<Job>, n: nat): map<Page, nat>
    requires n <= |js|
  {
    if n == 0 then map[] else Graph(js, n - 1)[js[n - 1].page := js[n - 1].frame]
  }

  /** When its turn comes, each of the first `n` jobs finds a clean frame for every table its
      page is still missing. */
  ghost predicate RoomFor(s: Space, r: nat, js: seq<Job>, flags: Flags, n: nat)
    requires n <= |js|
    decreases n, 0
  {
    n == 0 || RoomForNext(s, r, js, flags, n - 1)
  }

  ghost predicate RoomForNext(s: Space, r: nat, js: seq<Job>, flags: Flags, n: nat)
    requires n < |js|
    decreases n, 1
  {
    RoomFor(s, r, js, flags, n) && CanMap(MapAll(s, r, js, n, flags), r, 4, js[n].page, flags)
  }

  lemma RoomLast(s: Space, r: nat, js: seq<Job>, flags: Flags, n: nat)
    requires n < |js|
    ensures RoomFor(s, r, js, flags, n + 1) <==>
            RoomFor(s, r, js, flags, n) && CanMap(MapAll(s, r, js, n, flags), r, 4, js[n].page, flags)
  {
    assert RoomFor(s, r, js, flags, n + 1) <==> RoomForNext(s, r, js, flags, n);
  }

  ghost predicate Room(s: Space, r: nat, js: seq<Job>, flags: Flags) {
    RoomFor(s, r, js, flags, |js|)
  }

  /** Page `q` of space `u` is the page of one of the jobs `g` in space `r`. */
  ghost predicate InGraph(r: nat, g: map<Page, nat>, u: nat, q: Page) {
    q in g && (r == u || q.i4 == 0)
  }

  /** In `s'` the pages of `g` lead, in space `r`, to their frames with the given flags, and every
      other page of every address space to what it led to in `s`. */
  ghost predicate GraphMapped(s: Space, r: nat, g: map<Page, nat>, flags: Flags, s': Space) {
    && KeepsRoots(s, s')
    && forall u: nat, q: Page :: IsRoot(s, u) ==>
         LeafEntry(s'.mem, u, 4, q) == if InGraph(r, g, u, q) then Entry(g[q], flags) else LeafEntry(s.mem, u, 4, q)
  }

  lemma GraphMappedStep(s: Space, r: nat, g: map<Page, nat>, p: Page, f: nat, flags: Flags, a: Space, b: Space)
    requires GraphMapped(s, r, g, flags, a) && Remaps(a, r, p, Entry(f, flags), b)
    ensures GraphMapped(s, r, g[p := f], flags, b)
  {
    var g' := g[p := f];
    forall u: nat, q: Page | IsRoot(s, u)
      ensures LeafEntry(b.mem, u, 4, q)
              == if InGraph(r, g', u, q) then Entry(g'[q], flags) else LeafEntry(s.mem, u, 4, q)
    {
      assert IsRoot(a, u);
    }
  }

  /** The state after `n` jobs, once the ones before are known to have worked. */
  ghost predicate RunDone(s: Space, r: nat, js: seq<Job>, n: nat, flags: Flags, s': Space)
    requires n <= |js|
  {
    Inv(s') && IsRoot(s', r) && Grows(s, s') && GraphMapped(s, r, Graph(js, n), flags, s')
  }

  /** A well-formed state whose space `r` may have the pages of `js` mapped. */
  ghost predicate Runnable(s: Space, r: nat, js: seq<Job>) {
    Inv(s) && IsRoot(s, r) && AllMappable(s, js)
  }

  /** Mapping a run of pages, page by page: the invariant is kept, only frames for new tables are
      taken, and exactly the pages of the run change. */
  lemma {:induction false} MapAllSound(s: Space, r: nat, js: seq<Job>, n: nat, flags: Flags, s': Space)
    requires Runnable(s, r, js) && n <= |js| && s' == MapAll(s, r, js, n, flags)
    ensures RoomFor(s, r, js, flags, n) ==> RunDone(s, r, js, n, flags, s')
    decreases n
  {
    if n == 0 {
      RunStart(s, r, js, flags);
    } else {
      var k: nat := n - 1;
      var a := MapAll(s, r, js, k, flags);
      MapAllSound(s, r, js, k, flags, a);
      RunNext(s, r, js, k, n, flags, a, s');
    }
  }

  lemma RunNext(s: Space, r: nat, js: seq<Job>, k: nat, n: nat, flags: Flags, a: Space, b: Space)
    requires n == k + 1 <= |js| && a == MapAll(s, r, js, k, flags) && b == MapAll(s, r, js, n, flags)
    ensures Runnable(s, r, js) && (RoomFor(s, r, js, flags, k) ==> RunDone(s, r, js, k, flags, a)) ==>
              (RoomFor(s, r, js, flags, n) ==> RunDone(s, r, js, n, flags, b))
  {
    RoomLast(s, r, js, flags, k);
    if Runnable(s, r, js) && RoomFor(s, r, js, flags, n) && RunDone(s, r, js, k, flags, a) {
      RunStep(s, r, js, k, flags, a, b);
    }
  }

  lemma RunStart(s: Space, r: nat, js: seq<Job>, flags: Flags)
    requires Inv(s) && IsRoot(s, r)
    ensures RunDone(s, r, js, 0, flags, s)
  {
    assert NewTables(s, s) == {};
  }

  lemma RunStep(s: Space, r: nat, js: seq<Job>, n: nat, flags: Flags, a: Space, b: Space)
    requires n < |js| && AllMappable(s, js) && RunDone(s, r, js, n, flags, a)
    requires b == Map(a, r, js[n].page, Entry(js[n].frame, flags))
    ensures CanMap(a, r, 4, js[n].page, flags) ==> RunDone(s, r, js, n + 1, flags, b)
  {
    var p, e := js[n].page, Entry(js[n].frame, flags);
    if CanMap(a, r, 4, p, flags) {
      MappableGrown(s, a, p);
      MapKeeps(a, r, p, e);
      MapRemaps(a, r, p, e, b);
      GrowsTransitive(s, a, b);
      GraphMappedStep(s, r, Graph(js, n), p, js[n].frame, flags, a, b);
    }
  }

  /** Page `q` of space `u` is one of the `n` pages from number `page` on of space `r`. */
  ghost predicate InRun(r: nat, page: nat, n: nat, u: nat, q: Page) {
    page <= Number(q) < page + n && (r == u || q.i4 == 0)
  }

  /** In `s'` the pages page, page+1, .. of space `r` lead to the frames frame, frame+1, .. with
      the given flags, and every other page of every address space to what it led to in `s`. */
  ghost predicate RangeMapped(s: Space, r: nat, page: nat, frame: nat, n: nat, flags: Flags, s': Space) {
    && KeepsRoots(s, s')
    && forall u: nat, q: Page :: IsRoot(s, u) ==>
         LeafEntry(s'.mem, u, 4, q)
         == if InRun(r, page, n, u, q) then Entry(frame + (Number(q) - page), flags) else LeafEntry(s.mem, u, 4, q)
  }

  /** A run keeps processor and software walk in step. */
  lemma {:induction false} MapAllAgrees(s: Space, r: nat, js: seq<Job>, n: nat, flags: Flags, s': Space)
    requires Runnable(s, r, js) && n <= |js| && s' == MapAll(s, r, js, n, flags)
    ensures RoomFor(s, r, js, flags, n) && HwAgrees(s) ==> HwAgrees(s')
    decreases n
  {
    if n > 0 {
      var k: nat := n - 1;
      var a := MapAll(s, r, js, k, flags);
      MapAllAgrees(s, r, js, k, flags, a);
      AgreesNext(s, r, js, k, n, flags, a, s');
    }
  }

  lemma AgreesNext(s: Space, r: nat, js: seq<Job>, k: nat, n: nat, flags: Flags, a: Space, b: Space)
    requires n == k + 1 <= |js| && a == MapAll(s, r, js, k, flags) && b == MapAll(s, r, js, n, flags)
    ensures Runnable(s, r, js) && (RoomFor(s, r, js, flags, k) && HwAgrees(s) ==> HwAgrees(a)) ==>
              (RoomFor(s, r, js, flags, n) && HwAgrees(s) ==> HwAgrees(b))
  {
    RoomLast(s, r, js, flags, k);
    if Runnable(s, r, js) && RoomFor(s, r, js, flags, n) && HwAgrees(s) && HwAgrees(a) {
      MapAllSound(s, r, js, k, flags, a);
      JobAgrees(s, r, js, k, flags, a, b);
    }
  }

  lemma JobAgrees(s: Space, r: nat, js: seq<Job>, n: nat, flags: Flags, a: Space, b: Space)
    requires n < |js| && AllMappable(s, js) && RunDone(s, r, js, n, flags, a) && HwAgrees(a)
    requires b == Map(a, r, js[n].page, Entry(js[n].frame, flags))
    ensures CanMap(a, r, 4, js[n].page, flags) ==> HwAgrees(b)
  {
    if CanMap(a, r, 4, js[n].page, flags) {
      MappableGrown(s, a, js[n].page);
      MapAgrees(a, r, js[n].page, Entry(js[n].frame, flags), b);
    }
  }

  /** Consecutive pages lead to consecutive frames. */
  lemma {:induction false} RunGraph(page: nat, frame: nat, n: nat, m: nat, q: Page)
    requires m <= n && page + n <= PAGES
    ensures var g := Graph(PageRun(page, frame, n), m);
      && (q in g <==> page <= Number(q) < page + m)
      && (q in g ==> g[q] == frame + (Number(q) - page))
    decreases m
  {
    if m > 0 {
      RunGraph(page, frame, n, m - 1, q);
      SamePageNo(q, page + m - 1);
    }
  }

  lemma SamePageNo(q: Page, a: nat)
    requires a < PAGES
    ensures q == PageNo(a) <==> Number(q) == a
  {
    NumberOf(a);
    PageOfNumber(q);
  }

  lemma PageOfNumber(q: Page)
    ensures Number(q) < PAGES && PageNo(Number(q)) == q
  {
    Digits(q.i4, q.i3, q.i2, q.i1);
  }

  /** The digits of a number in base 512, shifted to an address and read back. */
  lemma Digits(a: nat, b: nat, c: nat, d: nat)
    requires a < 512 && b < 512 && c < 512 && d < 512
    ensures var n := ((a * 512 + b) * 512 + c) * 512 + d;
      && n < PAGES && n * 0x1000 / 0x80_0000_0000 % 512 == a && n * 0x1000 / 0x4000_0000 % 512 == b
      && n * 0x1000 / 0x20_0000 % 512 == c && n * 0x1000 / 0x1000 % 512 == d
  {
    var n2 := a * 512 + b;
    var n1 := n2 * 512 + c;
    var n := n1 * 512 + d;
    Quotients(n, n1, d, n2, c * 512 + d, a, b * 0x4_0000 + c * 512 + d);
    LastDigit(n1, d);
    LastDigit(n2, c);
    LastDigit(a, b);
  }

  lemma Quotients(n: nat, n1: nat, r1: nat, n2: nat, r2: nat, n3: nat, r3: nat)
    requires n == n1 * 512 + r1 && r1 < 512
    requires n == n2 * 0x4_0000 + r2 && r2 < 0x4_0000
    requires n == n3 * 0x800_0000 + r3 && r3 < 0x800_0000
    ensures n * 0x1000 / 0x1000 == n && n * 0x1000 / 0x20_0000 == n1
    ensures n * 0x1000 / 0x4000_0000 == n2 && n * 0x1000 / 0x80_0000_0000 == n3
  {
  }

  lemma LastDigit(high: nat, x: nat)
    requires x < 512
    ensures (high * 512 + x) % 512 == x
  {
  }

  lemma RunIsRange(s: Space, r: nat, page: nat, frame: nat, n: nat, flags: Flags, s': Space)
    requires page + n <= PAGES && GraphMapped(s, r, Graph(PageRun(page, frame, n), n), flags, s')
    ensures RangeMapped(s, r, page, frame, n, flags, s')
  {
    var g := Graph(PageRun(page, frame, n), n);
    forall u: nat, q: Page | IsRoot(s, u)
      ensures LeafEntry(s'.mem, u, 4, q)
              == if InRun(r, page, n, u, q) then Entry(frame + (Number(q) - page), flags) else LeafEntry(s.mem, u, 4, q)
    {
      RunGraph(page, frame, n, n, q);
    }
  }

  // ---------- how many frames a run needs ----------

  /** Every step of every walk of the run keeps the invariant and every translation. */
  ghost predicate RunSound(s: Space, r: nat, js: seq<Job>, flags: Flags, n: nat)
    requires n <= |js|
    decreases n, 0
  {
    n == 0 || RunSoundNext(s, r, js, flags, n - 1)
  }

  ghost predicate RunSoundNext(s: Space, r: nat, js: seq<Job>, flags: Flags, n: nat)
    requires n < |js|
    decreases n, 1
  {
    RunSound(s, r, js, flags, n) && WalkSound(MapAll(s, r, js, n, flags), r, 4, js[n].page, flags)
  }

  /** A run is mapped soundly, step by step, if and only if it has room. */
  lemma {:induction false} RunExact(s: Space, r: nat, js: seq<Job>, n: nat, flags: Flags)
    requires Runnable(s, r, js) && n <= |js| && HUGE !in flags
    ensures RunSound(s, r, js, flags, n) <==> RoomFor(s, r, js, flags, n)
    decreases n
  {
    if n > 0 {
      var k: nat := n - 1;
      RunExact(s, r, js, k, flags);
      NextExact(s, r, js, k, n, flags);
    }
  }

  lemma NextExact(s: Space, r: nat, js: seq<Job>, k: nat, n: nat, flags: Flags)
    requires n == k + 1 <= |js|
    ensures Runnable(s, r, js) && HUGE !in flags && (RunSound(s, r, js, flags, k) <==> RoomFor(s, r, js, flags, k)) ==>
              (RunSound(s, r, js, flags, n) <==> RoomFor(s, r, js, flags, n))
  {
    var a := MapAll(s, r, js, k, flags);
    RoomLast(s, r, js, flags, k);
    assert RunSound(s, r, js, flags, n) <==> RunSoundNext(s, r, js, flags, k);
    if Runnable(s, r, js) && HUGE !in flags && RoomFor(s, r, js, flags, k) {
      MapAllSound(s, r, js, k, flags, a);
      WalkExact(a, r, js[k].page, flags);
    }
  }

  lemma NullTableInMap(a: Space, r: nat, p: Page, e: Entry)
    ensures 0 in a.tables ==> 0 in Map(a, r, p, e).tables
  {
    if 0 in a.tables {
      NullTableStays(a, r, 4, p, e.flags);
    }
  }

  /** While all free frames are zero-filled a run keeps the invariant if and only if its pages,
      each in turn, find enough of them; otherwise frame 0 becomes a table. */
  lemma RunNeedsFrames(s: Space, r: nat, js: seq<Job>, n: nat, flags: Flags, s': Space)
    requires Runnable(s, r, js) && ZeroFree(s) && n <= |js| && HUGE !in flags
    requires s' == MapAll(s, r, js, n, flags)
    ensures Inv(s') <==> RoomFor(s, r, js, flags, n)
    ensures !RoomFor(s, r, js, flags, n) ==> 0 in s'.tables
  {
    MapAllSound(s, r, js, n, flags, s');
    NullUnlessRoom(s, r, js, n, flags);
  }

  lemma {:induction false} NullUnlessRoom(s: Space, r: nat, js: seq<Job>, n: nat, flags: Flags)
    requires Runnable(s, r, js) && ZeroFree(s) && n <= |js| && HUGE !in flags
    ensures !RoomFor(s, r, js, flags, n) ==> 0 in MapAll(s, r, js, n, flags).tables
    decreases n
  {
    if n > 0 {
      var k: nat := n - 1;
      NullUnlessRoom(s, r, js, k, flags);
      NextNeedsFrames(s, r, js, k, n, flags);
    }
  }

  lemma NextNeedsFrames(s: Space, r: nat, js: seq<Job>, k: nat, n: nat, flags: Flags)
    requires n == k + 1 <= |js|
    ensures Runnable(s, r, js) && ZeroFree(s) && HUGE !in flags
            && (!RoomFor(s, r, js, flags, k) ==> 0 in MapAll(s, r, js, k, flags).tables) ==>
              (!RoomFor(s, r, js, flags, n) ==> 0 in MapAll(s, r, js, n, flags).tables)
  {
    var a := MapAll(s, r, js, k, flags);
    RoomLast(s, r, js, flags, k);
    NullTableInMap(a, r, js[k].page, Entry(js[k].frame, flags));
    if Runnable(s, r, js) && ZeroFree(s) && HUGE !in flags && RoomFor(s, r, js, flags, k) {
      MapAllSound(s, r, js, k, flags, a);
      JobNeedsFrames(s, r, js, k, flags, a, MapAll(s, r, js, n, flags));
    }
  }

  lemma JobNeedsFrames(s: Space, r: nat, js: seq<Job>, n: nat, flags: Flags, a: Space, b: Space)
    requires ZeroFree(s) && AllMappable(s, js) && n < |js| && HUGE !in flags
    requires b == Map(a, r, js[n].page, Entry(js[n].frame, flags))
    ensures RunDone(s, r, js, n, flags, a) ==>
              if CanMap(a, r, 4, js[n].page, flags) then Inv(b) && ZeroFree(b) else 0 in b.tables
  {
    if RunDone(s, r, js, n, flags, a) {
      GrowsKeepsZeroFree(s, a);
      CleanWhenZeroFree(a, r, js[n].page, flags);
      if CanMap(a, r, 4, js[n].page, flags) {
        MappableGrown(s, a, js[n].page);
        MapKeeps(a, r, js[n].page, Entry(js[n].frame, flags));
        GrowsKeepsZeroFree(a, b);
      } else {
        NoRoomNullTable(a, r, 4, js[n].page, flags);
      }
    }
  }

  /** Frames for the tables the pages of a run are missing, each page counted on its own. */
  ghost function Needs(m: Mem, r: nat, js: seq<Job>, n: nat): nat
    requires n <= |js|
  {
    if n == 0 then 0 else Needs(m, r, js, n - 1) + Missing(m, r, 4, js[n - 1].page)
  }

  /** Three frames per page are always enough. */
  lemma {:induction false} NeedsBound(m: Mem, r: nat, js: seq<Job>, n: nat)
    requires n <= |js|
    ensures Needs(m, r, js, n) <= 3 * n
    decreases n
  {
    if n > 0 {
      NeedsBound(m, r, js, n - 1);
      MissingBound(m, r, 4, js[n - 1].page);
    }
  }

  /** A run has room if there are clean frames for the tables each of its pages is missing on its
      own; pages that share a new table need fewer. */
  lemma {:induction false} RoomWhenNeeds(s: Space, r: nat, js: seq<Job>, n: nat, flags: Flags)
    requires Runnable(s, r, js) && ZeroFree(s) && n <= |js| && HUGE !in flags
    ensures Needs(s.mem, r, js, n) <= |FreeSet(s.pmm)| ==> Enough(s, r, js, n, flags, MapAll(s, r, js, n, flags))
    decreases n
  {
    if n > 0 {
      var k: nat := n - 1;
      RoomWhenNeeds(s, r, js, k, flags);
      NextEnough(s, r, js, k, n, flags);
    }
  }

  /** There was room, and no more frames were taken than counted. */
  ghost predicate Enough(s: Space, r: nat, js: seq<Job>, n: nat, flags: Flags, s': Space)
    requires n <= |js|
  {
    RoomFor(s, r, js, flags, n) && |FreeSet(s.pmm)| <= |FreeSet(s'.pmm)| + Needs(s.mem, r, js, n)
  }

  lemma NextEnough(s: Space, r: nat, js: seq<Job>, k: nat, n: nat, flags: Flags)
    requires n == k + 1 <= |js|
    ensures Runnable(s, r, js) && ZeroFree(s) && HUGE !in flags
            && (Needs(s.mem, r, js, k) <= |FreeSet(s.pmm)| ==>
                  Enough(s, r, js, k, flags, MapAll(s, r, js, k, flags))) ==>
              (Needs(s.mem, r, js, n) <= |FreeSet(s.pmm)| ==> Enough(s, r, js, n, flags, MapAll(s, r, js, n, flags)))
  {
    var a := MapAll(s, r, js, k, flags);
    if Runnable(s, r, js) && ZeroFree(s) && HUGE !in flags && Needs(s.mem, r, js, n) <= |FreeSet(s.pmm)|
       && Enough(s, r, js, k, flags, a)
    {
      RunMissing(s, r, js, k, flags, js[k].page);
      NextReady(s, r, js, k, flags, a);
      RoomLast(s, r, js, flags, k);
      NextCost(s, r, js, k, n, flags, a, MapAll(s, r, js, n, flags), js[k].page);
    }
  }

  /** While there is room a run leaves no page missing more than before. */
  lemma {:induction false} RunMissing(s: Space, r: nat, js: seq<Job>, n: nat, flags: Flags, q: Page)
    requires Runnable(s, r, js) && n <= |js|
    ensures RoomFor(s, r, js, flags, n) ==>
              Missing(MapAll(s, r, js, n, flags).mem, r, 4, q) <= Missing(s.mem, r, 4, q)
    decreases n
  {
    if n > 0 {
      var k: nat := n - 1;
      RunMissing(s, r, js, k, flags, q);
      NextMissing(s, r, js, k, n, flags, q);
    }
  }

  lemma NextMissing(s: Space, r: nat, js: seq<Job>, k: nat, n: nat, flags: Flags, q: Page)
    requires n == k + 1 <= |js|
    ensures var a, b := MapAll(s, r, js, k, flags), MapAll(s, r, js, n, flags);
      Runnable(s, r, js) && (RoomFor(s, r, js, flags, k) ==> Missing(a.mem, r, 4, q) <= Missing(s.mem, r, 4, q)) ==>
        (RoomFor(s, r, js, flags, n) ==> Missing(b.mem, r, 4, q) <= Missing(s.mem, r, 4, q))
  {
    if Runnable(s, r, js) && RoomFor(s, r, js, flags, n) {
      RoomLast(s, r, js, flags, k);
      NextCost(s, r, js, k, n, flags, MapAll(s, r, js, k, flags), MapAll(s, r, js, n, flags), q);
    }
  }

  lemma NextReady(s: Space, r: nat, js: seq<Job>, n: nat, flags: Flags, a: Space)
    requires Runnable(s, r, js) && ZeroFree(s) && HUGE !in flags && n < |js| && a == MapAll(s, r, js, n, flags)
    requires RoomFor(s, r, js, flags, n) && Missing(a.mem, r, 4, js[n].page) <= |FreeSet(a.pmm)|
    ensures CanMap(a, r, 4, js[n].page, flags)
  {
    MapAllSound(s, r, js, n, flags, a);
    GrowsKeepsZeroFree(s, a);
    CleanWhenZeroFree(a, r, js[n].page, flags);
  }

  lemma NextCost(s: Space, r: nat, js: seq<Job>, k: nat, n: nat, flags: Flags, a: Space, b: Space, q: Page)
    requires Runnable(s, r, js) && n == k + 1 <= |js|
    requires a == MapAll(s, r, js, k, flags) && b == MapAll(s, r, js, n, flags) && RoomFor(s, r, js, flags, n)
    ensures |FreeSet(b.pmm)| == |FreeSet(a.pmm)| - Missing(a.mem, r, 4, js[k].page)
    ensures Missing(b.mem, r, 4, q) <= Missing(a.mem, r, 4, q)
  {
    RoomLast(s, r, js, flags, k);
    MapAllSound(s, r, js, k, flags, a);
    MappableGrown(s, a, js[k].page);
    MapCost(a, r, js[k].page, Entry(js[k].frame, flags), b, r, q);
  }

  // ---------- unmapping a run of pages ----------

  /** The page `i` places after number `page`. */
  function NthPage(page: nat, i: nat): Page {
    PageNo(page + i)
  }

  lemma NthPageMappable(s: Space, page: nat, i: nat)
    requires LOW <= page && page + i < PAGES
    ensures Mappable(s, NthPage(page, i))
  {
    PageNoHigh(page + i);
    HighPageMappable(s, NthPage(page, i));
  }

  /** The pages page, page+1, .. cleared one after the other. */
  ghost function UnmapAll(s: Space, r: nat, page: nat, n: nat): Space {
    if n == 0 then s else Unmap(UnmapAll(s, r, page, n - 1), r, NthPage(page, n - 1))
  }

  /** In `s'` the `n` pages from number `page` on of space `r` lead nowhere, every other page of
      every address space to what it led to in `s`. */
  ghost predicate RangeUnmapped(s: Space, r: nat, page: nat, n: nat, s': Space) {
    && KeepsRoots(s, s')
    && forall u: nat, q: Page :: IsRoot(s, u) ==>
         LeafEntry(s'.mem, u, 4, q) == if InRun(r, page, n, u, q) then ZERO else LeafEntry(s.mem, u, 4, q)
  }

  /** `s'` differs from `s` in tables' words only, and the first `n` pages are unmapped. */
  ghost predicate UnmapDone(s: Space, r: nat, page: nat, n: nat, s': Space) {
    Inv(s') && IsRoot(s', r) && s' == s.(mem := s'.mem) && OnlyTables(s, s') && RangeUnmapped(s, r, page, n, s')
  }

  lemma {:induction false} UnmapAllSound(s: Space, r: nat, page: nat, n: nat, s': Space)
    requires Inv(s) && IsRoot(s, r) && LOW <= page && page + n <= PAGES && s' == UnmapAll(s, r, page, n)
    ensures UnmapDone(s, r, page, n, s')
    decreases n
  {
    if n > 0 {
      var k: nat := n - 1;
      var a := UnmapAll(s, r, page, k);
      UnmapAllSound(s, r, page, k, a);
      UnmapStep(s, r, page, k, n, a, s');
    }
  }

  lemma UnmapStep(s: Space, r: nat, page: nat, k: nat, n: nat, a: Space, b: Space)
    requires n == k + 1 && UnmapDone(s, r, page, k, a) && LOW <= page && page + n <= PAGES
    requires b == Unmap(a, r, NthPage(page, k))
    ensures Mappable(a, NthPage(page, k)) && UnmapDone(s, r, page, n, b)
  {
    var p := NthPage(page, k);
    NthPageMappable(a, page, k);
    UnmapKeeps(a, r, p);
    UnmapRemaps(a, r, p);
    NumberOf(page + k);
    RangeUnmappedStep(s, r, page, k, a, b);
  }

  lemma RangeUnmappedStep(s: Space, r: nat, page: nat, n: nat, a: Space, b: Space)
    requires RangeUnmapped(s, r, page, n, a) && page + n < PAGES && Remaps(a, r, PageNo(page + n), ZERO, b)
    ensures RangeUnmapped(s, r, page, n + 1, b)
  {
    forall u: nat, q: Page | IsRoot(s, u)
      ensures LeafEntry(b.mem, u, 4, q) == if InRun(r, page, n + 1, u, q) then ZERO else LeafEntry(s.mem, u, 4, q)
    {
      assert IsRoot(a, u);
      SamePageNo(q, page + n);
    }
  }

  /** Mapping a run and unmapping it leaves the run unmapped and nothing else changed. */
  lemma MappedThenUnmapped(s: Space, r: nat, page: nat, frame: nat, n: nat, flags: Flags, a: Space, b: Space)
    requires RangeMapped(s, r, page, frame, n, flags, a) && RangeUnmapped(a, r, page, n, b)
    ensures RangeUnmapped(s, r, page, n, b)
  {
    forall u: nat, q: Page | IsRoot(s, u)
      ensures LeafEntry(b.mem, u, 4, q) == if InRun(r, page, n, u, q) then ZERO else LeafEntry(s.mem, u, 4, q)
    {
      assert IsRoot(a, u);
    }
  }
}
