/**
 init_pmm of src/memory/phys.c: the bitmap's own pages are mapped with frames from a temporary
 bitmap, then the real bitmap is filled from the memory map.
 */
module Boot {
  import opened Frames
  import opened Bitmap
  import opened PageTables
  import opened Windowed
  import opened PageRanges
  import opened AddressSpaces
  import opened PageAllocation
  import opened FrameAllocator
  import opened SystemRuns

  const BOOT_SECTION_SIZE: nat := 0x800000
  const TMP_BITMAP_BASE: nat := 0x3f0000
  const TMP_BITMAP_SIZE: nat := 125             // 0x3f0000 / 4096 / 8 - 1
  const TMP_BITMAP_FIRST_FRAME: nat := 0x201000

  datatype Region = Region(base: nat, len: nat, usable: bool)

  type Uint32 = x: nat | x < 0x1_0000_0000

  /** memory_info_t as far as the allocator reads it. */
  datatype MemoryInfo = MemoryInfo(regions: seq<Region>, kernelAddr: Uint32, kernelSize: Uint32,
                                   framebuffer: Uint32, framebufferSize: Uint32)

  /** The end of the last usable range in the map. */
  function LastUsableEnd(regions: seq<Region>): nat {
    if regions == [] then 0
    else
      var r := regions[|regions| - 1];
      if r.usable then r.base + r.len else LastUsableEnd(regions[..|regions| - 1])
  }

  /** That is the end of a usable range with no usable one after it, or 0 if there is none. */
  lemma {:induction false} LastUsableIs(regions: seq<Region>)
    ensures if exists i: nat :: i < |regions| && regions[i].usable
            then exists i: nat :: && i < |regions| && regions[i].usable
                                  && LastUsableEnd(regions) == regions[i].base + regions[i].len
                                  && forall j: nat :: i < j < |regions| ==> !regions[j].usable
            else LastUsableEnd(regions) == 0
    decreases |regions|
  {
    if regions != [] {
      var n: nat := |regions| - 1;
      if regions[n].usable {
        assert regions[n].usable && n < |regions|;
      } else {
        LastUsableIs(regions[..n]);
        assert forall i: nat :: i < n ==> regions[..n][i] == regions[i];
        assert forall i: nat :: i < |regions| && regions[i].usable ==> i < n;
      }
    }
  }

  /** get_bitmap_size */
  method GetBitmapSize(regions: seq<Region>) returns (n: nat)
    ensures n == LastUsableEnd(regions) / 4096 / 8
  {
    var last := 0;
    for i := 0 to |regions|
      invariant last == LastUsableEnd(regions[..i])
    {
      if regions[i].usable {
        last := regions[i].base + regions[i].len;
      }
      assert regions[..i + 1][..i] == regions[..i];
    }
    assert regions[..|regions|] == regions;
    n := last / 4096 / 8;
  }

  /** In a sorted map the bitmap covers every whole block of every usable range. */
  lemma {:induction false} BitmapCovers(regions: seq<Region>, i: nat)
    requires forall a: nat, b: nat :: a < b < |regions| ==> regions[a].base + regions[a].len <= regions[b].base
    requires i < |regions| && regions[i].usable
    ensures regions[i].base + regions[i].len <= LastUsableEnd(regions)
  {
    var n := |regions| - 1;
    if i < n && !regions[n].usable {
      BitmapCovers(regions[..n], i);
    }
  }

  // ---------- the temporary bitmap ----------

  /** create_tmp_bitmap: frames 0x201 up to the end of the temporary bitmap are free. */
  method CreateTmpBitmap(a: Allocator, tmp: array<bv8>)
    requires tmp.Length == 4096
    modifies a`bitmap, a`size, a`reserved, tmp
    ensures a.Valid() && a.bitmap == tmp && a.size == TMP_BITMAP_SIZE
    ensures a.View().reserved == Range(0, 0x201) && a.View().frames == 1000
  {
    a.bitmap, a.size := tmp, TMP_BITMAP_SIZE;
    a.reserved := set k: nat | k < 1000 && BitAt(tmp[..], k);
    ghost var before := a.reserved;
    a.ReserveFrames(0, TMP_BITMAP_FIRST_FRAME);
    a.FreeFrames(TMP_BITMAP_FIRST_FRAME, TMP_BITMAP_BASE - 1);
    TmpReserved(before);
  }

  lemma TmpReserved(before: set<nat>)
    requires forall k :: k in before ==> k < 1000
    ensures before + (Touched(0, 0x201) * Range(0, 1000)) - Touched(0x201, 0x3f0) == Range(0, 0x201)
  {
    forall k: nat
      ensures k in before + (Touched(0, 0x201) * Range(0, 1000)) - Touched(0x201, 0x3f0) <==> k in Range(0, 0x201)
    {
      assert k in Touched(0, 0x201) <==> Touches(0, 0x201, k);
      assert k in Touched(0x201, 0x3f0) <==> Touches(0x201, 0x3f0, k);
      assert k in Range(0, 1000) <==> Within(0, 1000, k);
      assert k in Range(0, 0x201) <==> Within(0, 0x201, k);
    }
  }

  /** The allocator the boot tables are first extended with. */
  ghost function TmpPmm(): Pmm {
    Pmm(1000, Range(0, 0x201), 0)
  }

  const BITMAP_FLAGS: Flags := {PRESENT, WRITEABLE}

  /** The pages of a bitmap of `size` bytes at `base`, each to its own frame. */
  function BitmapRun(base: nat, size: nat): seq<Job> {
    PageRun(base / 4096, base / 4096, size / 4096 + 1)
  }

  /** What the boot loader has to leave behind: its tables meet the invariant on the temporary
      bitmap, and the bitmap's pages can be mapped. */
  ghost predicate BootReady(mem: Mem, root: nat, tables: Tables, base: nat, size: nat) {
    var s := Space(mem, TmpPmm(), tables, root);
    && Inv(s) && base % 4096 == 0 && base / 4096 + size / 4096 + 1 <= PAGES
    && RunReady(Mask(s), root, BitmapRun(base, size), BITMAP_FLAGS)
  }

  /** The pages of the bitmap are mapped at their own addresses, with tables from `s`'s free frames. */
  ghost predicate BitmapMapped(s: Space, base: nat, size: nat, s': Space) {
    && Grows(Mask(s), Mask(s'))
    && RangeMapped(Mask(s), s.kernel, base / 4096, base / 4096, size / 4096 + 1, BITMAP_FLAGS, Mask(s'))
  }

  /** The loop of map_bitmap. */
  method MapPages(k: Kernel, base: nat, size: nat)
    requires k.Valid() && k.pmm.View() == TmpPmm() && BootReady(k.mem, k.root, k.tables, base, size)
    modifies k`mem, k`tables, k.pmm`lastIdx, k.pmm`lastBit, k.pmm`reserved, k.pmm.bitmap
    ensures k.Valid() && BitmapMapped(old(k.Actual()), base, size, k.Actual())
  {
    ghost var s := k.Abs();
    MapRun(k, k.root * 0x1000, base, base, size / 4096 + 1, BITMAP_FLAGS, k.root);
    IdentityRun(s, k.root, base / 4096, size / 4096 + 1, k.Abs());
  }

  lemma IdentityRun(s: Space, r: nat, page: nat, n: nat, s': Space)
    requires RunReady(s, r, PageRun(page, page, n), BITMAP_FLAGS) && page + n <= PAGES
    requires s' == MapAll(s, r, PageRun(page, page, n), n, BITMAP_FLAGS)
    ensures Grows(s, s') && RangeMapped(s, r, page, page, n, BITMAP_FLAGS, s')
  {
    MapAllSound(s, r, PageRun(page, page, n), n, BITMAP_FLAGS, s');
    RunIsRange(s, r, page, page, n, BITMAP_FLAGS, s');
  }

  /** The part of map_bitmap that works on the temporary bitmap. */
  method MapOnTmp(a: Allocator, physical: Mem, root: nat, ghost tables: Tables, base: nat, size: nat, tmp: array<bv8>)
    returns (k: Kernel)
    requires tmp.Length == 4096 && a.lastIdx == 0 && a.lastBit == 7
    requires BootReady(physical, root, tables, base, size)
    modifies a, tmp
    ensures fresh(k) && k.pmm == a && k.root == k.cr3 == root && Inv(k.Actual())
    ensures 8 * a.lastIdx + 7 - a.lastBit < 1000
    ensures BitmapMapped(Space(physical, TmpPmm(), tables, root), base, size, k.Actual())
  {
    CreateTmpBitmap(a, tmp);
    k := new Kernel(a, physical, root, tables);
    MapPages(k, base, size);
    KernelFrames(k);
  }

  lemma KernelFrames(k: Kernel)
    requires k.Valid() && k.pmm.size == TMP_BITMAP_SIZE
    ensures 8 * k.pmm.lastIdx + 7 - k.pmm.lastBit < 1000 && Inv(k.Actual())
  {
  }

  /** map_bitmap: maps the real bitmap's pages at their own addresses, with the temporary one. */
  method MapBitmap(a: Allocator, physical: Mem, root: nat, ghost tables: Tables, base: nat, size: nat,
                   tmp: array<bv8>, main: array<bv8>)
    returns (k: Kernel, ghost p: Pmm)
    requires tmp.Length == 4096 && a.lastIdx == 0 && a.lastBit == 7
    requires BootReady(physical, root, tables, base, size)
    modifies a, tmp
    ensures fresh(k) && k.pmm == a && k.root == k.cr3 == root
    ensures a.bitmap == main && a.size == size && 8 * a.lastIdx + 7 - a.lastBit < 1000
    ensures Inv(Space(k.mem, p, k.tables, root))
    ensures BitmapMapped(Space(physical, TmpPmm(), tables, root), base, size, Space(k.mem, p, k.tables, root))
  {
    k := MapOnTmp(a, physical, root, tables, base, size, tmp);
    p := a.View();
    a.bitmap, a.size := main, size;
  }

  // ---------- the real bitmap ----------

  /** Reserves every frame the bitmap covers. */
  method FillBitmap(a: Allocator)
    requires a.size < a.bitmap.Length && 8 * a.bitmap.Length < 0x1_0000_0000
    modifies a.bitmap, a`reserved
    ensures a.Valid() && a.View().reserved == Range(0, 8 * a.size)
  {
    for i := 0 to a.size
      invariant forall j: nat :: j < i ==> a.bitmap[j] == 0xff
    {
      a.bitmap[i] := 0xff;
    }
    a.reserved := Range(0, 8 * a.size);
    FilledTies(a.bitmap[..], a.size);
  }

  lemma FilledTies(s: seq<bv8>, n: nat)
    requires n <= |s| && forall j: nat :: j < n ==> s[j] == 0xff
    ensures Ties(s, 8 * n, Range(0, 8 * n))
  {
    Uniform(0xff);
    forall k: nat | k < 8 * n ensures k in Range(0, 8 * n) && BitAt(s, k) {
      assert Within(0, 8 * n, k) && s[k / 8] == 0xff;
    }
  }

  /** The frames freed for a range, and for the usable ones of a whole map. */
  ghost function FramesOf(base: nat, len: nat): set<nat> {
    Touched(base / 4096, Pages(len))
  }

  ghost function Usable(regions: seq<Region>): set<nat>
    decreases |regions|
  {
    if regions == [] then {}
    else
      var n := |regions| - 1;
      Usable(regions[..n]) + if regions[n].usable then FramesOf(regions[n].base, regions[n].len) else {}
  }

  lemma {:induction false} UsableHas(regions: seq<Region>, k: nat)
    ensures k in Usable(regions)
            <==> exists i: nat :: i < |regions| && regions[i].usable && k in FramesOf(regions[i].base, regions[i].len)
    decreases |regions|
  {
    if regions != [] {
      var n := |regions| - 1;
      UsableHas(regions[..n], k);
      assert forall i: nat :: i < n ==> regions[..n][i] == regions[i];
    }
  }

  /** A request stays inside a backing array of `len` bytes, one slack byte left over. */
  ghost predicate FitsIn(len: nat, start: nat, bytes: nat) {
    start / 4096 + Pages(bytes) <= 8 * (len - 1)
  }

  ghost predicate RegionsFit(len: nat, regions: seq<Region>) {
    forall i: nat :: i < |regions| && regions[i].usable ==> FitsIn(len, regions[i].base, regions[i].len)
  }

  /** The loop over the memory map. */
  method FreeUsable(a: Allocator, regions: seq<Region>)
    requires a.Valid() && RegionsFit(a.bitmap.Length, regions)
    modifies a.bitmap, a`reserved
    ensures a.Valid() && a.View() == old(a.View()).(reserved := old(a.View()).reserved - Usable(regions))
  {
    ghost var v := a.View();
    for i := 0 to |regions|
      invariant a.Valid() && a.View() == v.(reserved := v.reserved - Usable(regions[..i]))
    {
      if regions[i].usable {
        a.FreeFrames(regions[i].base, regions[i].len);
      }
      assert regions[..i + 1][..i] == regions[..i];
    }
    assert regions[..|regions|] == regions;
  }

  /** Where the bitmap goes: the page after the kernel, whose size is rounded up in 32 bits. */
  function BitmapAddr(info: MemoryInfo): nat {
    info.kernelAddr + (info.kernelSize + 4095) % 0x1_0000_0000 / 4096 * 4096
  }

  /** The bitmap is page aligned if the kernel is, and begins in the page right after the kernel if
      and only if the 32-bit rounding does not wrap around; otherwise it begins with the kernel. */
  lemma BitmapPlace(info: MemoryInfo)
    ensures info.kernelAddr % 4096 == 0 ==> BitmapAddr(info) % 4096 == 0
    ensures info.kernelSize <= 0xffff_f000
            <==> info.kernelAddr + info.kernelSize <= BitmapAddr(info) < info.kernelAddr + info.kernelSize + 4096
    ensures info.kernelSize > 0xffff_f000 ==> BitmapAddr(info) == info.kernelAddr
    ensures (BitmapAddr(info) - info.kernelAddr) % 4096 == 0
  {
    RoundedUp(info.kernelSize);
    MultipleAbove(info.kernelAddr, (info.kernelSize + 4095) % 0x1_0000_0000 / 4096 * 4096);
  }

  lemma RoundedUp(size: Uint32)
    ensures var r := (size + 4095) % 0x1_0000_0000 / 4096 * 4096;
      && r % 4096 == 0 && if size <= 0xffff_f000 then size <= r < size + 4096 else r == 0
  {
  }

  lemma MultipleAbove(a: nat, r: nat)
    requires r % 4096 == 0
    ensures a % 4096 == 0 ==> (a + r) % 4096 == 0
  {
  }

  /** A bitmap that is not empty holds no byte of the kernel if and only if the rounding does not
      wrap around. */
  lemma KernelSpared(info: MemoryInfo, n: nat)
    requires n > 0
    ensures (forall b: nat :: ByteIn(info.kernelAddr, info.kernelSize, b) ==> !ByteIn(BitmapAddr(info), n, b))
            <==> info.kernelSize <= 0xffff_f000
  {
    BitmapPlace(info);
    if info.kernelSize > 0xffff_f000 {
      assert ByteIn(info.kernelAddr, info.kernelSize, info.kernelAddr) && ByteIn(BitmapAddr(info), n, info.kernelAddr);
    }
  }

  ghost predicate ByteIn(base: nat, len: nat, b: nat) {
    base <= b < base + len
  }

  /** All ranges initialisation touches lie inside the array of `len` bytes behind the bitmap. */
  ghost predicate InfoFits(len: nat, info: MemoryInfo, n: nat) {
    && RegionsFit(len, info.regions) && FitsIn(len, 0, BOOT_SECTION_SIZE)
    && FitsIn(len, info.kernelAddr, info.kernelSize) && FitsIn(len, BitmapAddr(info), n)
    && FitsIn(len, info.framebuffer, info.framebufferSize)
  }

  /** Frames init_pmm keeps reserved whatever the memory map says. */
  ghost function KeptFrames(info: MemoryInfo, n: nat): set<nat> {
    FramesOf(0, BOOT_SECTION_SIZE) + FramesOf(info.kernelAddr, info.kernelSize)
    + FramesOf(BitmapAddr(info), n) + FramesOf(info.framebuffer, info.framebufferSize)
  }

  ghost function InitialReserved(info: MemoryInfo, n: nat): set<nat> {
    Range(0, 8 * n) - Usable(info.regions) + KeptFrames(info, n) * Range(0, 8 * n)
  }

  /** The part of init_pmm after the real bitmap is in place. */
  method FillFromMap(a: Allocator, info: MemoryInfo)
    requires a.size < a.bitmap.Length && 8 * a.bitmap.Length < 0x1_0000_0000 && InfoFits(a.bitmap.Length, info, a.size)
    modifies a.bitmap, a`reserved
    ensures a.Valid() && a.View().reserved == InitialReserved(info, a.size)
  {
    FillBitmap(a);
    FreeUsable(a, info.regions);
    a.ReserveFrames(0, BOOT_SECTION_SIZE);
    a.ReserveFrames(info.kernelAddr, info.kernelSize);
    a.ReserveFrames(BitmapAddr(info), a.size);
    a.ReserveFrames(info.framebuffer, info.framebufferSize);
  }

  // ---------- what it amounts to ----------

  ghost predicate FrameIn(base: nat, len: nat, k: nat) {
    base <= k * 4096 < base + len
  }

  /** The frame begins in the range, and the masks do not leave it out. */
  ghost predicate Marked(base: nat, len: nat, k: nat) {
    FrameIn(base, len, k) && !InGap(base / 4096, Pages(len), k)
  }

  /** For an aligned base the frames of a range are those that begin in it, the gap aside. */
  lemma FramesOfExact(base: nat, len: nat, k: nat)
    requires base % 4096 == 0
    ensures k in FramesOf(base, len) <==> Marked(base, len, k)
  {
    assert k in Touched(base / 4096, Pages(len)) <==> Touches(base / 4096, Pages(len), k);
  }

  ghost predicate Aligned(info: MemoryInfo) {
    && info.kernelAddr % 4096 == 0 && info.framebuffer % 4096 == 0
    && forall i: nat :: i < |info.regions| && info.regions[i].usable ==> info.regions[i].base % 4096 == 0
  }

  ghost predicate UsableAt(regions: seq<Region>, k: nat) {
    exists i: nat :: i < |regions| && regions[i].usable && Marked(regions[i].base, regions[i].len, k)
  }

  lemma UsableExact(info: MemoryInfo, k: nat)
    requires Aligned(info)
    ensures k in Usable(info.regions) <==> UsableAt(info.regions, k)
  {
    UsableHas(info.regions, k);
    forall i: nat | i < |info.regions| && info.regions[i].usable
      ensures k in FramesOf(info.regions[i].base, info.regions[i].len)
              <==> Marked(info.regions[i].base, info.regions[i].len, k)
    {
      FramesOfExact(info.regions[i].base, info.regions[i].len, k);
    }
  }

  ghost predicate KeptAt(info: MemoryInfo, n: nat, k: nat) {
    || k < 0x800 || Marked(info.kernelAddr, info.kernelSize, k)
    || Marked(BitmapAddr(info), n, k) || Marked(info.framebuffer, info.framebufferSize, k)
  }

  lemma KeptExact(info: MemoryInfo, n: nat, k: nat)
    requires Aligned(info)
    ensures k in KeptFrames(info, n) <==> KeptAt(info, n, k)
  {
    FramesOfExact(0, BOOT_SECTION_SIZE, k);
    FramesOfExact(info.kernelAddr, info.kernelSize, k);
    FramesOfExact(BitmapAddr(info), n, k);
    FramesOfExact(info.framebuffer, info.framebufferSize, k);
  }

  /** A frame is free after initialisation exactly if it begins in a usable range and in none of
      the kept ones, where a range counts without the frames of its gap. */
  lemma InitialFreeFrames(info: MemoryInfo, n: nat, k: nat)
    requires Aligned(info) && k < 8 * n
    ensures k !in InitialReserved(info, n) <==> UsableAt(info.regions, k) && !KeptAt(info, n, k)
  {
    UsableExact(info, k);
    KeptExact(info, n, k);
    assert Within(0, 8 * n, k);
    assert k in Range(0, 8 * n);
  }

  /** Every frame of the range is reserved. */
  ghost predicate RangeReserved(info: MemoryInfo, n: nat, base: nat, len: nat) {
    forall k: nat :: k < 8 * n && FrameIn(base, len, k) ==> k in InitialReserved(info, n)
  }

  /** The frames in the range's gap are unusable or kept for another reason. */
  ghost predicate GapCovered(info: MemoryInfo, n: nat, base: nat, len: nat) {
    forall k: nat :: k < 8 * n && InGap(base / 4096, Pages(len), k) ==> !UsableAt(info.regions, k) || KeptAt(info, n, k)
  }

  /** A range that initialisation means to keep is reserved as a whole if and only if its gap is
      covered. */
  lemma RangeReservedExact(info: MemoryInfo, n: nat, base: nat, len: nat)
    requires Aligned(info) && base % 4096 == 0
    requires forall k: nat :: Marked(base, len, k) ==> KeptAt(info, n, k)
    ensures RangeReserved(info, n, base, len) <==> GapCovered(info, n, base, len)
  {
    forall k: nat | k < 8 * n && FrameIn(base, len, k)
      ensures k in InitialReserved(info, n)
              <==> (InGap(base / 4096, Pages(len), k) ==> !UsableAt(info.regions, k) || KeptAt(info, n, k))
    {
      InitialFreeFrames(info, n, k);
    }
    forall k: nat | InGap(base / 4096, Pages(len), k) ensures FrameIn(base, len, k) {
      GapInside(base, len, k);
    }
  }

  lemma GapInside(base: nat, len: nat, k: nat)
    requires base % 4096 == 0 && InGap(base / 4096, Pages(len), k)
    ensures FrameIn(base, len, k)
  {
    var f, p := base / 4096, Pages(len);
    assert 8 <= p && 8 * (f / 8 + 1) + f % 8 == f + 8 && f <= k < f + 8;
    assert base == f * 4096 && (len - 1) / 4096 >= 7;
  }

  /** A range is one of those init_pmm keeps: the kernel, the bitmap, the framebuffer. */
  ghost predicate IsKept(info: MemoryInfo, n: nat, base: nat, len: nat) {
    || (base == info.kernelAddr && len == info.kernelSize)
    || (base == BitmapAddr(info) && len == n)
    || (base == info.framebuffer && len == info.framebufferSize)
  }

  /** The kernel, the bitmap and the framebuffer are each reserved as a whole exactly if the gap
      is covered. */
  lemma KeptRangeReserved(info: MemoryInfo, n: nat, base: nat, len: nat)
    requires Aligned(info) && IsKept(info, n, base, len)
    ensures RangeReserved(info, n, base, len) <==> GapCovered(info, n, base, len)
  {
    RangeReservedExact(info, n, base, len);
  }

  /** 1.5 GiB of memory with an 8-page kernel at 0x801000. */
  function UnluckyMachine(): MemoryInfo {
    MemoryInfo([Region(0, 0x6000_0000, true)], 0x80_1000, 0x8000, 0, 0)
  }

  /** There initialisation leaves a frame of the kernel and one of the bitmap itself free. */
  lemma FramesLost()
    ensures var info, n := UnluckyMachine(), LastUsableEnd(UnluckyMachine().regions) / 4096 / 8;
      && n == 0xc000 && Aligned(info) && InfoFits(n + 1, info, n) && BitmapAddr(info) == 0x80_9000
      && FrameIn(info.kernelAddr, info.kernelSize, 0x808) && 0x808 !in InitialReserved(info, n)
      && FrameIn(BitmapAddr(info), n, 0x810) && 0x810 !in InitialReserved(info, n)
  {
    var info := UnluckyMachine();
    assert Marked(info.regions[0].base, info.regions[0].len, 0x808);
    assert Marked(info.regions[0].base, info.regions[0].len, 0x810);
    InitialFreeFrames(info, 0xc000, 0x808);
    InitialFreeFrames(info, 0xc000, 0x810);
  }

  // ---------- hand-over to the runs of the system ----------

  /** The frames of the bitmap itself. */
  ghost function BitmapFrames(info: MemoryInfo, n: nat): set<nat> {
    set k: nat | k < 8 * n && FrameIn(BitmapAddr(info), n, k)
  }

  /** The state initialisation leaves can start a run of the system, with the bitmap's frames set
      aside, if and only if the bitmap's gap is covered and no table lies in the bitmap. */
  lemma BootStartsRuns(s: Space, info: MemoryInfo, n: nat)
    requires Inv(s) && HighFree(s) && s.pmm.reserved == InitialReserved(info, n) && Aligned(info)
    ensures SystemInv(System(s, [], BitmapFrames(info, n)))
            <==> GapCovered(info, n, BitmapAddr(info), n) && BitmapFrames(info, n) !! s.tables.Keys
  {
    KeptRangeReserved(info, n, BitmapAddr(info), n);
    assert RangeReserved(info, n, BitmapAddr(info), n) <==> BitmapFrames(info, n) <= s.pmm.reserved;
  }

  // ---------- the whole of init_pmm ----------

  lemma BootSectionKept(info: MemoryInfo, n: nat, k: nat)
    requires k < LOW && k < 8 * n
    ensures k in InitialReserved(info, n)
  {
    FramesOfExact(0, BOOT_SECTION_SIZE, k);
    assert Within(0, 8 * n, k) && k in Range(0, 8 * n);
  }

  /** Handing over to an allocator that keeps the boot section reserved keeps the invariant:
      every table taken so far lies in it. */
  lemma HandOver(s: Space, p: Pmm)
    requires Inv(s) && Ready(p) && LOW <= p.frames
    requires forall k: nat :: k < LOW ==> k in p.reserved
    requires forall t :: t in s.tables ==> t < LOW
    ensures Inv(s.(pmm := p)) && HighFree(s.(pmm := p))
  {
    var s' := s.(pmm := p);
    forall f: nat | Pinned(s', f) ensures Pinned(s, f) {
    }
  }

  /** The new tables of the bootstrap come from the temporary bitmap's free frames. */
  lemma BootTables(s: Space, s': Space)
    requires s.pmm == TmpPmm() && Grows(s, s')
    ensures forall t :: t in s'.tables && t !in s.tables ==> 0x201 <= t < 0x3e8
  {
    forall t | t in s'.tables && t !in s.tables ensures 0x201 <= t < 0x3e8 {
      assert t in NewTables(s, s') && t in FreeSet(s.pmm);
      assert t in Range(0, 0x201) <==> Within(0, 0x201, t);
    }
  }

  lemma KernelReady(k: Kernel, s: Space, s': Space, info: MemoryInfo, n: nat)
    requires k.pmm.Valid() && k.pmm.size == n && k.pmm.reserved == InitialReserved(info, n)
    requires k.root == k.cr3 == s.kernel && k.Actual() == s'.(pmm := k.pmm.View())
    requires s.pmm == TmpPmm() && Inv(s) && Inv(s') && s'.kernel == s.kernel && BitmapMapped(s, BitmapAddr(info), n, s')
    requires LOW <= 8 * n && 8 * k.pmm.lastIdx + 7 - k.pmm.lastBit < 1000
    ensures k.Valid() && HighFree(k.Abs()) && k.Abs().pmm == Pmm(8 * n, InitialReserved(info, n), k.pmm.View().cursor)
    ensures forall t :: t in k.tables ==> if t in s.tables then t < 0x201 else 0x201 <= t < 0x3e8
    ensures RangeMapped(Mask(s), s.kernel, BitmapAddr(info) / 4096, BitmapAddr(info) / 4096, n / 4096 + 1,
                        BITMAP_FLAGS, k.Abs())
  {
    AfterBoot(s, s', info, n, k.pmm.View());
    assert forall f: nat :: IsFree(k.Abs(), f) <==> IsFree(k.Actual(), f);
  }

  /** Page `i` of the bitmap leads to its own frame, present and writeable and nothing else. */
  lemma BitmapEntry(s: Space, base: nat, n: nat, s': Space, i: nat)
    requires IsRoot(s, s.kernel) && base / 4096 + n / 4096 + 1 <= PAGES && i <= n / 4096
    requires RangeMapped(s, s.kernel, base / 4096, base / 4096, n / 4096 + 1, BITMAP_FLAGS, s')
    ensures LeafEntry(s'.mem, s.kernel, 4, NthPage(base / 4096, i)) == Entry(base / 4096 + i, {PRESENT, WRITEABLE})
  {
    NumberOf(base / 4096 + i);
    assert InRun(s.kernel, base / 4096, n / 4096 + 1, s.kernel, NthPage(base / 4096, i));
  }

  /** The parts of init_pmm, for a bitmap at `base`. */
  method Initialise(a: Allocator, physical: Mem, root: nat, ghost tables: Tables, info: MemoryInfo, base: nat,
                    tmp: array<bv8>, main: array<bv8>)
    returns (k: Kernel)
    requires tmp != main && tmp.Length == 4096 && a.lastIdx == 0 && a.lastBit == 7 && base == BitmapAddr(info)
    requires 8 * main.Length < 0x1_0000_0000 && InitReady(physical, root, tables, info, main.Length)
    modifies a, tmp, main
    ensures fresh(k) && k.Valid() && HighFree(k.Abs()) && k.pmm == a && a.bitmap == main
    ensures var n := LastUsableEnd(info.regions) / 4096 / 8;
      && a.size == n && k.Abs().pmm.frames == 8 * n && k.Abs().pmm.reserved == InitialReserved(info, n)
      && RangeMapped(Mask(Space(physical, TmpPmm(), tables, root)), root, base / 4096, base / 4096, n / 4096 + 1,
                     BITMAP_FLAGS, k.Abs())
      && (Aligned(info) ==>
            (SystemInv(System(k.Abs(), [], BitmapFrames(info, n)))
             <==> GapCovered(info, n, base, n) && BitmapFrames(info, n) !! k.tables.Keys))
    ensures forall i: nat :: i <= a.size / 4096 ==>
              LeafEntry(k.Abs().mem, root, 4, NthPage(base / 4096, i)) == Entry(base / 4096 + i, {PRESENT, WRITEABLE})
    ensures forall t :: t in k.tables ==> if t in tables then t < 0x201 else 0x201 <= t < 0x3e8
  {
    var n := GetBitmapSize(info.regions);
    ghost var p: Pmm;
    ghost var s := Space(physical, TmpPmm(), tables, root);
    k, p := MapBitmap(a, physical, root, tables, base, n, tmp, main);
    ghost var s' := Space(k.mem, p, k.tables, root);
    FillFromMap(a, info);
    KernelReady(k, s, s', info, n);
    AfterInit(k, physical, root, tables, info, base, main.Length);
  }

  /** The address init_bitmap chooses for a bitmap of `n` bytes. */
  method PlaceBitmap(info: MemoryInfo, ghost n: nat) returns (base: nat)
    requires n > 0
    ensures base == BitmapAddr(info) && (info.kernelAddr % 4096 == 0 ==> base % 4096 == 0)
    ensures if info.kernelSize <= 0xffff_f000
            then info.kernelAddr + info.kernelSize <= base < info.kernelAddr + info.kernelSize + 4096
            else base == info.kernelAddr
    ensures (forall b: nat :: ByteIn(info.kernelAddr, info.kernelSize, b) ==> !ByteIn(base, n, b))
            <==> info.kernelSize <= 0xffff_f000
  {
    base := info.kernelAddr + (info.kernelSize + 4095) % 0x1_0000_0000 / 4096 * 4096;
    BitmapPlace(info);
    KernelSpared(info, n);
  }

  /** init_pmm; `base` is where it puts the bitmap. */
  method InitPmm(a: Allocator, physical: Mem, root: nat, ghost tables: Tables, info: MemoryInfo,
                 tmp: array<bv8>, main: array<bv8>)
    returns (k: Kernel, base: nat)
    requires tmp != main && tmp.Length == 4096 && a.lastIdx == 0 && a.lastBit == 7
    requires 8 * main.Length < 0x1_0000_0000 && InitReady(physical, root, tables, info, main.Length)
    modifies a, tmp, main
    ensures fresh(k) && k.Valid() && HighFree(k.Abs()) && k.pmm == a && a.bitmap == main
    ensures var n := LastUsableEnd(info.regions) / 4096 / 8;
      && a.size == n && k.Abs().pmm.frames == 8 * n && k.Abs().pmm.reserved == InitialReserved(info, n)
      && RangeMapped(Mask(Space(physical, TmpPmm(), tables, root)), root, base / 4096, base / 4096, n / 4096 + 1,
                     BITMAP_FLAGS, k.Abs())
      && (Aligned(info) ==>
            (SystemInv(System(k.Abs(), [], BitmapFrames(info, n)))
             <==> GapCovered(info, n, base, n) && BitmapFrames(info, n) !! k.tables.Keys))
    ensures forall t :: t in k.tables ==> if t in tables then t < 0x201 else 0x201 <= t < 0x3e8
    ensures info.kernelAddr % 4096 == 0 ==> base % 4096 == 0
    ensures if info.kernelSize <= 0xffff_f000
            then info.kernelAddr + info.kernelSize <= base < info.kernelAddr + info.kernelSize + 4096
            else base == info.kernelAddr
    ensures (forall b: nat :: ByteIn(info.kernelAddr, info.kernelSize, b) ==> !ByteIn(base, a.size, b))
            <==> info.kernelSize <= 0xffff_f000
    ensures forall i: nat :: i <= a.size / 4096 ==>
              LeafEntry(k.Abs().mem, root, 4, NthPage(base / 4096, i)) == Entry(base / 4096 + i, {PRESENT, WRITEABLE})
  {
    base := PlaceBitmap(info, LastUsableEnd(info.regions) / 4096 / 8);
    k := Initialise(a, physical, root, tables, info, base, tmp, main);
  }

  lemma AfterInit(k: Kernel, physical: Mem, root: nat, tables: Tables, info: MemoryInfo, base: nat, len: nat)
    requires InitReady(physical, root, tables, info, len) && base == BitmapAddr(info) && k.Valid() && HighFree(k.Abs())
    requires k.pmm.size == LastUsableEnd(info.regions) / 4096 / 8
    requires k.Abs().pmm.reserved == InitialReserved(info, k.pmm.size)
    requires RangeMapped(Mask(Space(physical, TmpPmm(), tables, root)), root, base / 4096, base / 4096,
                         k.pmm.size / 4096 + 1, BITMAP_FLAGS, k.Abs())
    ensures base % 4096 == 0
    ensures Aligned(info) ==>
              (SystemInv(System(k.Abs(), [], BitmapFrames(info, k.pmm.size)))
               <==> GapCovered(info, k.pmm.size, base, k.pmm.size) && BitmapFrames(info, k.pmm.size) !! k.tables.Keys)
    ensures forall i: nat :: i <= k.pmm.size / 4096 ==>
              LeafEntry(k.Abs().mem, root, 4, NthPage(base / 4096, i)) == Entry(base / 4096 + i, {PRESENT, WRITEABLE})
  {
    StartsRuns(k, info, k.pmm.size);
    BitmapPages(physical, root, tables, base, k.pmm.size, k.Abs());
  }

  lemma BitmapPages(physical: Mem, root: nat, tables: Tables, base: nat, n: nat, s': Space)
    requires BootReady(physical, root, tables, base, n)
    requires RangeMapped(Mask(Space(physical, TmpPmm(), tables, root)), root, base / 4096, base / 4096, n / 4096 + 1,
                         BITMAP_FLAGS, s')
    ensures forall i: nat :: i <= n / 4096 ==>
              LeafEntry(s'.mem, root, 4, NthPage(base / 4096, i)) == Entry(base / 4096 + i, {PRESENT, WRITEABLE})
  {
    var s := Space(physical, TmpPmm(), tables, root);
    MaskKeeps(s);
    forall i: nat | i <= n / 4096
      ensures LeafEntry(s'.mem, root, 4, NthPage(base / 4096, i)) == Entry(base / 4096 + i, {PRESENT, WRITEABLE})
    {
      BitmapEntry(Mask(s), base, n, s', i);
    }
  }

  lemma StartsRuns(k: Kernel, info: MemoryInfo, n: nat)
    requires k.Valid() && HighFree(k.Abs()) && k.Abs().pmm.reserved == InitialReserved(info, n)
    ensures Aligned(info) ==>
              (SystemInv(System(k.Abs(), [], BitmapFrames(info, n)))
               <==> GapCovered(info, n, BitmapAddr(info), n) && BitmapFrames(info, n) !! k.tables.Keys)
  {
    MaskKeeps(k.Actual());
    if Aligned(info) { BootStartsRuns(k.Abs(), info, n); }
  }

  /** What init_pmm finds: the boot loader's tables, a memory map that ends above the boot section,
      and an array of `len` bytes behind the bitmap that all ranges fit into. */
  ghost predicate InitReady(mem: Mem, root: nat, tables: Tables, info: MemoryInfo, len: nat) {
    var n := LastUsableEnd(info.regions) / 4096 / 8;
    n < len && LOW <= 8 * n && InfoFits(len, info, n) && BootReady(mem, root, tables, BitmapAddr(info), n)
  }

  lemma MappedAnyPmm(s: Space, r: nat, page: nat, n: nat, s': Space, p: Pmm)
    requires RangeMapped(s, r, page, page, n, BITMAP_FLAGS, s')
    ensures RangeMapped(s, r, page, page, n, BITMAP_FLAGS, s'.(pmm := p))
  {
    assert forall u: nat :: IsRoot(s', u) ==> IsRoot(s'.(pmm := p), u);
  }

  lemma AfterBoot(s: Space, s': Space, info: MemoryInfo, n: nat, p: Pmm)
    requires s.pmm == TmpPmm() && Inv(s) && Inv(s') && s'.kernel == s.kernel && BitmapMapped(s, BitmapAddr(info), n, s')
    requires LOW <= 8 * n && p == Pmm(8 * n, InitialReserved(info, n), p.cursor) && p.cursor < 1000
    ensures Inv(s'.(pmm := p)) && HighFree(s'.(pmm := p)) && IsRoot(s', s.kernel)
    ensures forall t :: t in s'.tables ==> if t in s.tables then t < 0x201 else 0x201 <= t < 0x3e8
    ensures RangeMapped(Mask(s), s.kernel, BitmapAddr(info) / 4096, BitmapAddr(info) / 4096, n / 4096 + 1,
                        BITMAP_FLAGS, Mask(s'.(pmm := p)))
  {
    MappedAnyPmm(Mask(s), s.kernel, BitmapAddr(info) / 4096, n / 4096 + 1, Mask(s'), p);
    BootTables(Mask(s), Mask(s'));
    LowTables(s, s');
    ReadyAfterBoot(info, n, p);
    HandOver(s', p);
  }

  /** Every table lies in the boot section: the first ones were reserved in the temporary bitmap,
      the others taken from it. */
  lemma LowTables(s: Space, s': Space)
    requires s.pmm == TmpPmm() && Inv(s) && forall t :: t in s'.tables && t !in s.tables ==> 0x201 <= t < 0x3e8
    ensures forall t :: t in s'.tables ==> if t in s.tables then t < 0x201 else 0x201 <= t < 0x3e8
  {
    forall t | t in s.tables ensures t < 0x201 {
      assert t in s.pmm.reserved && (t in Range(0, 0x201) <==> Within(0, 0x201, t));
    }
  }

  lemma ReadyAfterBoot(info: MemoryInfo, n: nat, p: Pmm)
    requires LOW <= 8 * n && p == Pmm(8 * n, InitialReserved(info, n), p.cursor) && p.cursor < 1000
    ensures Ready(p) && forall k: nat :: k < LOW ==> k in p.reserved
  {
    forall k: nat | k < LOW ensures k in p.reserved {
      BootSectionKept(info, n, k);
    }
    forall k: nat | k in p.reserved ensures k < 8 * n {
      assert k in Range(0, 8 * n);
    }
  }
}
