/**
 The clients of both halves of the memory subsystem in src/memory/phys.c: pmm_alloc_custom and
 pmm_free.
 */
module PageAllocation {
  import opened Wrappers
  import opened Frames
  import opened PageTables
  import opened Mapping
  import opened Windowed
  import opened PageRanges
  import opened AddressSpaces
  import FrameAllocator

  /** A run that can be carried out from `s`. */
  ghost predicate RunReady(s: Space, r: nat, js: seq<Job>, flags: Flags) {
    Inv(s) && IsRoot(s, r) && AllMappable(s, js) && Room(s, r, js, flags)
  }

  /** From `a` the job can be done, and leads to `b`. */
  ghost predicate MapsTo(a: Space, r: nat, j: Job, flags: Flags, b: Space) {
    MapReady(a, r, j.page, flags) && b == Map(a, r, j.page, Entry(j.frame, flags))
  }

  /** The states a run goes through. */
  ghost predicate Trace(ss: seq<Space>, r: nat, js: seq<Job>, flags: Flags, n: nat)
    requires n <= |js|
  {
    |ss| == n + 1 && forall i: nat {:trigger js[i]} :: i < n ==> MapsTo(ss[i], r, js[i], flags, ss[i + 1])
  }

  lemma {:induction false} RunTrace(s: Space, r: nat, js: seq<Job>, flags: Flags, n: nat) returns (ss: seq<Space>)
    requires Runnable(s, r, js) && n <= |js|
    ensures RoomFor(s, r, js, flags, n) ==> Arrives(ss, s, r, js, flags, n, MapAll(s, r, js, n, flags))
    decreases n
  {
    ss := [s];
    if n > 0 {
      var k: nat := n - 1;
      var prefix := RunTrace(s, r, js, flags, k);
      var a, b := MapAll(s, r, js, k, flags), MapAll(s, r, js, n, flags);
      ss := prefix + [b];
      TraceNext(prefix, s, r, js, flags, k, n, a, b);
    }
  }

  /** The trace begins with `s` and ends with `s'`. */
  ghost predicate Arrives(ss: seq<Space>, s: Space, r: nat, js: seq<Job>, flags: Flags, n: nat, s': Space)
    requires n <= |js|
  {
    Trace(ss, r, js, flags, n) && ss[0] == s && ss[n] == s'
  }

  lemma TraceNext(ss: seq<Space>, s: Space, r: nat, js: seq<Job>, flags: Flags, k: nat, n: nat, a: Space, b: Space)
    requires n == k + 1 <= |js| && a == MapAll(s, r, js, k, flags) && b == MapAll(s, r, js, n, flags)
    ensures Runnable(s, r, js) && (RoomFor(s, r, js, flags, k) ==> Arrives(ss, s, r, js, flags, k, a)) ==>
              (RoomFor(s, r, js, flags, n) ==> Arrives(ss + [b], s, r, js, flags, n, b))
  {
    if Runnable(s, r, js) && RoomFor(s, r, js, flags, n) {
      RoomLast(s, r, js, flags, k);
      TurnReady(s, r, js, k, flags, a);
      if Arrives(ss, s, r, js, flags, k, a) {
        TraceExtended(ss, r, js, flags, k, b);
      }
    }
  }

  lemma TurnReady(s: Space, r: nat, js: seq<Job>, i: nat, flags: Flags, a: Space)
    requires Runnable(s, r, js) && i < |js| && a == MapAll(s, r, js, i, flags)
    ensures RoomFor(s, r, js, flags, i + 1) ==> MapReady(a, r, js[i].page, flags)
  {
    MapAllSound(s, r, js, i, flags, a);
    RoomLast(s, r, js, flags, i);
    if RoomFor(s, r, js, flags, i + 1) {
      MappableGrown(s, a, js[i].page);
    }
  }

  lemma TraceExtended(ss: seq<Space>, r: nat, js: seq<Job>, flags: Flags, n: nat, b: Space)
    requires n < |js| && Trace(ss, r, js, flags, n) && MapsTo(ss[n], r, js[n], flags, b)
    ensures Trace(ss + [b], r, js, flags, n + 1)
  {
  }

  /** map_frame for one job of a run. */
  method MapJob(k: Kernel, rootPtr: nat, page: nat, frame: nat, flags: Flags, ghost r: nat,
                ghost j: Job, ghost b: Space)
    requires k.Valid() && rootPtr == r * 0x1000 && frame % 0x1000 == 0 && j == Job(PageOf(page), frame / 0x1000)
    requires MapsTo(k.Abs(), r, j, flags, b)
    modifies k`mem, k`tables, k.pmm`lastIdx, k.pmm`lastBit, k.pmm`reserved, k.pmm.bitmap
    ensures k.Valid() && k.Abs() == b
  {
    k.MapFrame(rootPtr, page, frame, flags, r);
  }

  /** The loop around map_frame in pmm_alloc_custom and map_bitmap. */
  method MapRun(k: Kernel, rootPtr: nat, base: nat, frame: nat, n: nat, flags: Flags, ghost r: nat)
    requires rootPtr == r * 0x1000 && frame % 0x1000 == 0
    requires k.Valid() && RunReady(k.Abs(), r, PageRun(base / 0x1000, frame / 0x1000, n), flags)
    modifies k`mem, k`tables, k.pmm`lastIdx, k.pmm`lastBit, k.pmm`reserved, k.pmm.bitmap
    ensures k.Valid()
    ensures k.Abs() == MapAll(old(k.Abs()), r, PageRun(base / 0x1000, frame / 0x1000, n), n, flags)
  {
    ghost var js := PageRun(base / 0x1000, frame / 0x1000, n);
    ghost var ss := RunTrace(k.Abs(), r, js, flags, n);
    MapLoop(k, rootPtr, base, frame, n, flags, r, js, ss);
  }

  method MapLoop(k: Kernel, rootPtr: nat, base: nat, frame: nat, n: nat, flags: Flags, ghost r: nat,
                 ghost js: seq<Job>, ghost ss: seq<Space>)
    requires rootPtr == r * 0x1000 && frame % 0x1000 == 0 && js == PageRun(base / 0x1000, frame / 0x1000, n)
    requires k.Valid() && Trace(ss, r, js, flags, n) && k.Abs() == ss[0]
    modifies k`mem, k`tables, k.pmm`lastIdx, k.pmm`lastBit, k.pmm`reserved, k.pmm.bitmap
    ensures k.Valid() && k.Abs() == ss[n]
  {
    for i := 0 to n
      invariant k.Valid() && k.Abs() == ss[i]
    {
      var page, f := RunTarget(base, frame, n, i);
      MapJob(k, rootPtr, page, f, flags, r, js[i], ss[i + 1]);
    }
  }

  /** to_page and to_frame of the next addresses of a run. */
  method RunTarget(base: nat, frame: nat, n: nat, i: nat) returns (page: nat, f: nat)
    requires i < n && frame % 0x1000 == 0
    ensures f % 0x1000 == 0
    ensures PageRun(base / 0x1000, frame / 0x1000, n)[i] == Job(PageOf(page), f / 0x1000)
  {
    page := (base + i * 0x1000) / 0x1000 * 0x1000;
    f := (frame + i * 0x1000) / 0x1000 * 0x1000;
    RunAddresses(base, frame, i);
  }

  lemma RunAddresses(base: nat, frame: nat, i: nat)
    requires frame % 0x1000 == 0
    ensures PageOf((base + i * 0x1000) / 0x1000 * 0x1000) == PageNo(base / 0x1000 + i)
    ensures (frame + i * 0x1000) / 0x1000 * 0x1000 / 0x1000 == frame / 0x1000 + i
    ensures (frame + i * 0x1000) / 0x1000 * 0x1000 % 0x1000 == 0
  {
    assert (base + i * 0x1000) / 0x1000 == base / 0x1000 + i;
  }

  /** All free frames lie above the boot section, as init_pmm leaves them. */
  ghost predicate HighFree(s: Space) {
    forall f: nat :: IsFree(s, f) ==> LOW <= f
  }

  /** `s` after `n` frames are taken. */
  ghost function Taken(s: Space, n: nat): Space {
    s.(pmm := Alloc(s.pmm, n).1)
  }

  /** pmm_alloc_unmapped on the kernel's allocator. */
  method TakeFrames(k: Kernel, n: nat) returns (addr: nat)
    requires k.Valid()
    modifies k.pmm`lastIdx, k.pmm`lastBit, k.pmm`reserved, k.pmm.bitmap
    ensures k.Valid() && k.Abs() == Taken(old(k.Abs()), n)
    ensures addr == Alloc(old(k.Abs()).pmm, n).0 * 0x1000
  {
    MaskKeeps(k.Actual());
    TakeKeepsInv(k.Actual(), n);
    TakeKeepsInv(k.Abs(), n);
    addr := k.pmm.AllocFrames(n);
  }

  /** pmm_alloc_custom as a whole: `n` frames are taken and mapped at their own addresses. */
  ghost function Allocate(s: Space, n: nat, flags: Flags): Space {
    var f := Alloc(s.pmm, n).0;
    MapAll(Taken(s, n), s.kernel, PageRun(f, f, n), n, flags)
  }

  /** The request succeeds, and each page in turn finds clean frames for its page tables. */
  ghost predicate CanAllocate(s: Space, n: nat, flags: Flags) {
    var f := Alloc(s.pmm, n).0;
    && n > 0 && f != 0 && s.pmm.frames <= PAGES && HighFree(s)
    && Room(Taken(s, n), s.kernel, PageRun(f, f, n), flags)
  }

  lemma RunIsHigh(s: Space, n: nat, flags: Flags)
    requires Inv(s) && CanAllocate(s, n, flags)
    ensures var f := Alloc(s.pmm, n).0; LOW <= f && f + n <= s.pmm.frames
  {
    AllocNextFit(s.pmm, n);
    assert IsFree(s, Alloc(s.pmm, n).0);
  }

  /** What the mapping loop needs once the frames are taken. */
  lemma AllocationMaps(s: Space, n: nat, flags: Flags, s1: Space, f: nat)
    requires Inv(s) && CanAllocate(s, n, flags) && s1 == Taken(s, n) && f == Alloc(s.pmm, n).0
    ensures LOW <= f && f + n <= PAGES && RunReady(s1, s.kernel, PageRun(f, f, n), flags)
  {
    RunIsHigh(s, n, flags);
    TakeKeepsInv(s, n);
    PageRunHigh(s1, f, f, n);
  }

  /** The effect of an allocation: the invariant is kept, and exactly the run's pages change. */
  lemma AllocateEffect(s: Space, n: nat, flags: Flags, f: nat, s': Space)
    requires Inv(s) && CanAllocate(s, n, flags) && f == Alloc(s.pmm, n).0 && s' == Allocate(s, n, flags)
    ensures Inv(s') && Grows(Taken(s, n), s') && RangeMapped(Taken(s, n), s.kernel, f, f, n, flags, s')
  {
    var s1 := Taken(s, n);
    AllocationMaps(s, n, flags, s1, f);
    MapAllSound(s1, s.kernel, PageRun(f, f, n), n, flags, s');
    RunIsRange(s1, s.kernel, f, f, n, flags, s');
  }

  /** Page `i` of the run allocated leads to its own frame, with the flags asked for and no others. */
  lemma AllocatedPage(s: Space, n: nat, flags: Flags, f: nat, s': Space, i: nat)
    requires Inv(s) && CanAllocate(s, n, flags) && f == Alloc(s.pmm, n).0 && s' == Allocate(s, n, flags) && i < n
    ensures LeafEntry(s'.mem, s.kernel, 4, NthPage(f, i)) == Entry(f + i, flags)
    ensures f + i !in s.pmm.reserved && f + i < s.pmm.frames && 0x800 <= f + i
  {
    AllocateEffect(s, n, flags, f, s');
    AllocationMaps(s, n, flags, Taken(s, n), f);
    AllocNextFit(s.pmm, n);
    RunIsHigh(s, n, flags);
    NumberOf(f + i);
    assert InRun(s.kernel, f, n, s.kernel, NthPage(f, i));
  }

  /** pmm_alloc_custom */
  method PmmAlloc(k: Kernel, n: nat, flags: Flags) returns (addr: nat)
    requires k.Valid() && CanAllocate(k.Abs(), n, flags)
    modifies k`mem, k`tables, k.pmm`lastIdx, k.pmm`lastBit, k.pmm`reserved, k.pmm.bitmap
    ensures k.Valid() && k.Abs() == Allocate(old(k.Abs()), n, flags)
    ensures addr == Alloc(old(k.Abs()).pmm, n).0 * 0x1000
  {
    ghost var s := k.Abs();
    MaskKeeps(k.Actual());
    addr := TakeFrames(k, n);
    AllocationMaps(s, n, flags, k.Abs(), addr / 0x1000);
    MapRun(k, k.root * 0x1000, addr, addr, n, flags, k.root);
  }

  /** pmm_free as a whole: the frames are given back, the pages unmapped. */
  ghost function Free(s: Space, page: nat, f: nat, n: nat): Space {
    UnmapAll(s.(pmm := Release(s.pmm, f, n)), s.kernel, page, n)
  }

  /** free_frames on the kernel's allocator. */
  method GiveFrames(k: Kernel, addr: nat, n: nat)
    requires k.Valid() && addr % 0x1000 == 0 && LOW <= addr / 0x1000 && addr / 0x1000 + n <= k.Abs().pmm.frames
    requires Touched(addr / 0x1000, n) !! k.Abs().tables.Keys
    modifies k.pmm.bitmap, k.pmm`reserved
    ensures k.Valid() && k.Abs() == old(k.Abs()).(pmm := Release(old(k.Abs()).pmm, addr / 0x1000, n))
  {
    GiveKeepsInv(k.Actual(), addr / 0x1000, n);
    if n > 0 { FrameAllocator.RunShape(addr / 0x1000, n); }
    k.pmm.FreeFrames(addr, n * 0x1000);
  }

  method UnmapRun(k: Kernel, firstPage: nat, n: nat)
    requires k.Valid() && firstPage % 0x1000 == 0 && LOW <= firstPage / 0x1000 && firstPage / 0x1000 + n <= PAGES
    modifies k`mem, k`tables, k.pmm`lastIdx, k.pmm`lastBit, k.pmm`reserved, k.pmm.bitmap
    ensures k.Valid() && k.Abs() == UnmapAll(old(k.Abs()), k.root, firstPage / 0x1000, n)
  {
    ghost var s, first := k.Abs(), firstPage / 0x1000;
    for i := 0 to n
      invariant k.Valid() && k.Abs() == UnmapAll(s, k.root, first, i)
    {
      PageAddress(firstPage, i, first);
      NthPageMappable(k.Abs(), first, i);
      UnmapNext(k, firstPage + i * 0x1000, UnmapAll(s, k.root, first, i), UnmapAll(s, k.root, first, i + 1));
    }
  }

  method UnmapNext(k: Kernel, page: nat, ghost a: Space, ghost b: Space)
    requires k.Valid() && Mappable(k.Abs(), PageOf(page)) && k.Abs() == a && b == Unmap(a, k.root, PageOf(page))
    modifies k`mem, k`tables, k.pmm`lastIdx, k.pmm`lastBit, k.pmm`reserved, k.pmm.bitmap
    ensures k.Valid() && k.Abs() == b
  {
    k.UnmapPage(k.root * 0x1000, page, k.root);
  }

  lemma PageAddress(firstPage: nat, i: nat, first: nat)
    requires firstPage % 0x1000 == 0 && first == firstPage / 0x1000
    ensures PageOf(firstPage + i * 0x1000) == NthPage(first, i)
  {
    assert (first + i) * 0x1000 == firstPage + i * 0x1000;
  }

  /** The physical address of a high page, as pmm_free looks it up. */
  method FrameOfPage(k: Kernel, page: nat, ghost f: nat) returns (addr: nat)
    requires k.Valid() && page % 0x1000 == 0 && LOW <= page / 0x1000 < PAGES
    requires Translate(k.Abs().mem, k.root, PageOf(page)) == Some(f)
    modifies k`mem, k`tables, k.pmm`lastIdx, k.pmm`lastBit, k.pmm`reserved, k.pmm.bitmap
    ensures k.Valid() && k.Abs() == old(k.Abs())
    ensures addr == f * 0x1000
  {
    PageNoHigh(page / 0x1000);
    PageAddress(page, 0, page / 0x1000);
    MaskKeeps(k.Actual());
    addr := k.ToPhys(k.root * 0x1000, page, k.root);
  }

  /** pmm_free: the frames are found through the first page, given back, and then unmapped. */
  method PmmFree(k: Kernel, firstPage: nat, n: nat, ghost f: nat)
    requires k.Valid() && firstPage % 0x1000 == 0
    requires LOW <= firstPage / 0x1000 < PAGES && firstPage / 0x1000 + n <= PAGES
    requires Translate(k.Abs().mem, k.root, PageOf(firstPage)) == Some(f)
    requires LOW <= f && f + n <= k.Abs().pmm.frames && Touched(f, n) !! k.Abs().tables.Keys
    modifies k`mem, k`tables, k.pmm`lastIdx, k.pmm`lastBit, k.pmm`reserved, k.pmm.bitmap
    ensures k.Valid() && k.Abs() == Free(old(k.Abs()), firstPage / 0x1000, f, n)
  {
    var first := FrameOfPage(k, firstPage, f);
    AddressOfFrame(f);
    GiveFrames(k, first, n);
    UnmapRun(k, firstPage, n);
  }

  /** The frame pmm_free takes for the first one: that behind the first page, or 0 if it has none. */
  ghost function FrameBehind(s: Space, page: nat): nat {
    match Translate(s.mem, s.kernel, PageNo(page))
    case None => 0
    case Some(f) => f
  }

  /** Frames that may be given back: not frame 0 or the window's, no tables, and the low ones still
      mapped at their own addresses. */
  ghost predicate Returnable(s: Space, f: nat, n: nat) {
    forall k: nat :: k in Touched(f, n) && k in s.pmm.reserved ==>
      && k != 0 && k !in s.tables && k != WINDOW_FRAME
      && (k < LOW ==> HwFrame(s.mem, s.kernel, LowPage(k)) == Some(k))
  }

  /** Giving frames back keeps the invariant exactly if they are returnable. */
  lemma ReleaseExact(s: Space, f: nat, n: nat)
    requires Inv(s)
    ensures Inv(s.(pmm := Release(s.pmm, f, n))) <==> Returnable(s, f, n)
  {
    var s' := s.(pmm := Release(s.pmm, f, n));
    if Returnable(s, f, n) {
      forall k: nat | Pinned(s', k) ensures HwFrame(s'.mem, s'.kernel, LowPage(k)) == Some(k) {
        assert Pinned(s, k) || (k in Touched(f, n) && k in s.pmm.reserved);
      }
    }
    if Inv(s') {
      forall k: nat | k in Touched(f, n) && k in s.pmm.reserved && k < LOW && k != WINDOW_FRAME
        ensures HwFrame(s.mem, s.kernel, LowPage(k)) == Some(k)
      {
        assert Pinned(s', k);
      }
    }
  }

  /** pmm_free of a page that leads nowhere gives back frame 0 and up. */
  lemma FreeAbsentPage(s: Space, page: nat, n: nat)
    requires Inv(s) && Translate(s.mem, s.kernel, PageNo(page)) == None && n > 0
    ensures FrameBehind(s, page) == 0 && !Inv(s.(pmm := Release(s.pmm, FrameBehind(s, page), n)))
  {
    assert Touches(0, n, 0);
    assert 0 in Touched(0, n);
    ReleaseExact(s, 0, n);
  }

  /** Allocating and freeing: the run ends up unmapped, every other translation is as before,
      and the only frames still reserved are those of new page tables. */
  lemma AllocFreeRoundTrip(s: Space, n: nat, flags: Flags, f: nat, s': Space, s'': Space)
    requires Inv(s) && CanAllocate(s, n, flags) && PRESENT in flags && f == Alloc(s.pmm, n).0
    requires s' == Allocate(s, n, flags) && s'' == Free(s', f, f, n)
    ensures Inv(s'') && s''.pmm.reserved == s.pmm.reserved + NewTables(s, s'')
    ensures NewTables(s, s'') !! Touched(f, n)
    ensures RangeUnmapped(s, s.kernel, f, n, s'')
    ensures Translate(s'.mem, s.kernel, PageNo(f)) == Some(f)
  {
    var s1 := Taken(s, n);
    AllocateEffect(s, n, flags, f, s');
    RunIsHigh(s, n, flags);
    AllocatedFrames(s, n, s1, s');
    NumberOf(f);
    assert IsRoot(s1, s.kernel) && InRun(s.kernel, f, n, s.kernel, PageNo(f));
    var s2 := s'.(pmm := Release(s'.pmm, f, n));
    GiveKeepsInv(s', f, n);
    UnmapAllSound(s2, s.kernel, f, n, s'');
    FreedTranslations(s, s1, s', s2, s'', f, n, flags);
  }

  /** Where the frames of a run and of its new tables come from. */
  lemma AllocatedFrames(s: Space, n: nat, s1: Space, s': Space)
    requires Inv(s) && n > 0 && Alloc(s.pmm, n).0 != 0 && s1 == Taken(s, n) && Grows(s1, s')
    ensures var f := Alloc(s.pmm, n).0;
      && (forall k :: k in Touched(f, n) ==> k !in s.pmm.reserved && k !in s'.tables)
      && s'.pmm.reserved - Touched(f, n) == s.pmm.reserved + NewTables(s, s')
  {
    AllocNextFit(s.pmm, n);
    var f := Alloc(s.pmm, n).0;
    assert NewTables(s1, s') == NewTables(s, s');
    forall k | k in Touched(f, n) ensures k !in s.pmm.reserved && k !in s'.tables {
      assert k in s1.pmm.reserved && f <= k < f + n;
      assert k in s'.tables ==> k in NewTables(s1, s') || k in s.tables;
    }
  }

  lemma FreedTranslations(s: Space, s1: Space, s': Space, s2: Space, s'': Space, f: nat, n: nat, flags: Flags)
    requires s1 == s.(pmm := s1.pmm) && RangeMapped(s1, s.kernel, f, f, n, flags, s')
    requires s2 == s'.(pmm := s2.pmm) && RangeUnmapped(s2, s.kernel, f, n, s'')
    ensures RangeUnmapped(s, s.kernel, f, n, s'')
  {
    assert forall u: nat :: IsRoot(s2, u) <==> IsRoot(s', u);
    MappedThenUnmapped(s1, s.kernel, f, f, n, flags, s', s'');
    assert forall u: nat :: IsRoot(s1, u) <==> IsRoot(s, u);
  }

  /** A frame of the run was free before; outside the gap case it is now reserved and no table. */
  lemma FreshFrame(s: Space, n: nat, g: nat, s1: Space, s': Space)
    requires Inv(s) && n > 0 && Alloc(s.pmm, n).0 != 0 && s1 == Taken(s, n) && Grows(s1, s')
    requires Alloc(s.pmm, n).0 <= g < Alloc(s.pmm, n).0 + n
    ensures IsFree(s, g) && (GapFree(Alloc(s.pmm, n).0, n) ==> g !in s'.tables && g in s'.pmm.reserved)
  {
    var f := Alloc(s.pmm, n).0;
    AllocNextFit(s.pmm, n);
    if GapFree(f, n) {
      TouchedWhenGapFree(f, n);
      assert Within(f, n, g);
      AllocatedFrames(s, n, s1, s');
    }
  }
}
