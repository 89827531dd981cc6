/**
 The anonymous mmap of src/syscall/syscall.c, with the widths its C expressions have: the page
 count and the loop index keep 32 bits, and so does the byte offset `i * PAGE_SIZE`.
 */
module AnonymousMmap {
  import opened Wrappers
  import opened Frames
  import opened PageTables
  import opened Mapping
  import opened Windowed
  import opened PageRanges
  import opened AddressSpaces
  import opened PageAllocation
  import opened Permissions
  import opened EntryWords

  /** PROT_READ, PROT_WRITE, PROT_EXEC. */
  datatype Prot = Prot(read: bool, write: bool, exec: bool)

  /** User | (prot & 3) */
  function UserFlags(prot: Prot): Flags {
    {USER} + (if prot.read then {PRESENT} else {}) + (if prot.write then {WRITEABLE} else {})
  }

  /** Pages of 4 KiB in 4 GiB, after which the 32-bit offset starts again. */
  const WRAP: nat := 0x10_0000

  function MmapPages(len: nat): nat {
    (len / 0x1000 + 1) % 0x1_0000_0000
  }

  /** The different pages among them. */
  function PagesMapped(len: nat): nat {
    Turns(MmapPages(len))
  }

  /** The loop's pages and frames: from the 2^20th turn on the first ones come again. */
  function MmapRun(page: nat, frame: nat, n: nat): (js: seq<Job>)
    ensures |js| == n && forall i: nat :: i < n ==> js[i] == Job(PageNo(page + i % WRAP), frame + i % WRAP)
  {
    seq(n, i requires 0 <= i < n => Job(PageNo(page + i % WRAP), frame + i % WRAP))
  }

  function Turns(m: nat): nat {
    if m <= WRAP then m else WRAP
  }

  /** `g` sends `n` consecutive pages from number `page` on to consecutive frames, and no others. */
  ghost predicate SendsRun(g: map<Page, nat>, page: nat, frame: nat, n: nat, q: Page) {
    (q in g <==> page <= Number(q) < page + n) && (q in g ==> g[q] == frame + (Number(q) - page))
  }

  /** Whatever the number of turns, at most 2^20 consecutive pages are mapped, to consecutive frames. */
  lemma {:induction false} MmapGraph(page: nat, frame: nat, n: nat, m: nat, q: Page)
    requires m <= n && page + Turns(m) <= PAGES
    ensures SendsRun(Graph(MmapRun(page, frame, n), m), page, frame, Turns(m), q)
    decreases m
  {
    if m > 0 {
      MmapGraph(page, frame, n, m - 1, q);
      MmapTurn(Graph(MmapRun(page, frame, n), m - 1), page, frame, m - 1, q);
    }
  }

  lemma MmapTurn(g: map<Page, nat>, page: nat, frame: nat, i: nat, q: Page)
    requires page + Turns(i + 1) <= PAGES && SendsRun(g, page, frame, Turns(i), q)
    ensures SendsRun(g[PageNo(page + i % WRAP) := frame + i % WRAP], page, frame, Turns(i + 1), q)
  {
    WrappedTurn(i);
    SamePageNo(q, page + i % WRAP);
  }

  lemma WrappedTurn(i: nat)
    ensures if i < WRAP then i % WRAP == i else i % WRAP < WRAP
  {
  }

  /** mmap_syscall as a whole: a run of frames is taken, or frame 0 used if there is none, and
      mapped at `addr` in space `r`. */
  ghost function MmapState(s: Space, r: nat, addr: nat, len: nat, prot: Prot): Space {
    var n := MmapPages(len);
    MapAll(Taken(s, n), r, MmapRun(addr / 0x1000, Alloc(s.pmm, n).0, n), n, UserFlags(prot))
  }

  /** The pages may be mapped, and each in turn finds clean frames for its page tables. */
  ghost predicate CanMmap(s: Space, r: nat, addr: nat, len: nat, prot: Prot) {
    var n := MmapPages(len);
    var js := MmapRun(addr / 0x1000, Alloc(s.pmm, n).0, n);
    && IsRoot(s, r) && addr / 0x1000 + PagesMapped(len) <= PAGES && AllMappable(s, js)
    && Room(Taken(s, n), r, js, UserFlags(prot))
  }

  lemma TakeMappable(s: Space, n: nat, js: seq<Job>)
    requires Inv(s) && AllMappable(s, js)
    ensures AllMappable(Taken(s, n), js)
  {
    TakeKeepsInv(s, n);
    forall i: nat | i < |js| ensures Mappable(Taken(s, n), js[i].page) {
      assert Mappable(s, js[i].page);
      assert forall f: nat :: Pinned(Taken(s, n), f) ==> Pinned(s, f);
    }
  }

  lemma MmapReady(s: Space, r: nat, addr: nat, len: nat, prot: Prot, s1: Space, f: nat)
    requires Inv(s) && CanMmap(s, r, addr, len, prot)
    requires s1 == Taken(s, MmapPages(len)) && f == Alloc(s.pmm, MmapPages(len)).0
    ensures RunReady(s1, r, MmapRun(addr / 0x1000, f, MmapPages(len)), UserFlags(prot))
  {
    TakeKeepsInv(s, MmapPages(len));
    TakeMappable(s, MmapPages(len), MmapRun(addr / 0x1000, f, MmapPages(len)));
  }

  /** mmap_syscall for executable mappings. */
  method Mmap(k: Kernel, pml4: nat, addr: nat, len: nat, prot: Prot, ghost r: nat) returns (start: nat)
    requires k.Valid() && pml4 == r * 0x1000 && prot.exec && CanMmap(k.Abs(), r, addr, len, prot)
    modifies k`mem, k`tables, k.pmm`lastIdx, k.pmm`lastBit, k.pmm`reserved, k.pmm.bitmap
    ensures k.Valid() && k.Abs() == MmapState(old(k.Abs()), r, addr, len, prot)
    ensures start == if addr / 0x1000 % 2 == 0 then addr else addr - 0x1000
  {
    MapRequest(k, pml4, addr, len, prot, r);
    start := Bit12Cleared(addr);
  }

  /** addr & ~PAGE_SIZE */
  method Bit12Cleared(addr: nat) returns (start: nat)
    ensures start == if addr / 0x1000 % 2 == 0 then addr else addr - 0x1000
  {
    start := addr - addr / 0x1000 % 2 * 0x1000;
  }

  /** All of it but the return value. */
  method MapRequest(k: Kernel, pml4: nat, addr: nat, len: nat, prot: Prot, ghost r: nat)
    requires k.Valid() && pml4 == r * 0x1000 && prot.exec && CanMmap(k.Abs(), r, addr, len, prot)
    modifies k`mem, k`tables, k.pmm`lastIdx, k.pmm`lastBit, k.pmm`reserved, k.pmm.bitmap
    ensures k.Valid() && k.Abs() == MmapState(old(k.Abs()), r, addr, len, prot)
  {
    ghost var s := k.Abs();
    MaskKeeps(k.Actual());
    var pagesCount := (len / 0x1000 + 1) % 0x1_0000_0000;
    var start := TakeFrames(k, pagesCount);
    MmapReady(s, r, addr, len, prot, k.Abs(), start / 0x1000);
    MapUserRun(k, pml4, addr, start, pagesCount, UserFlags(prot), r);
  }

  /** mmap clears bit 12 of the address it returns instead of the bits below it: it returns a byte of
      the mapping if and only if the requested page number is even, and else one of the page before. */
  lemma MmapReturns(addr: nat, len: nat, start: nat)
    requires start == (if addr / 0x1000 % 2 == 0 then addr else addr - 0x1000) && PagesMapped(len) > 0
    ensures addr / 0x1000 <= start / 0x1000 < addr / 0x1000 + PagesMapped(len) <==> addr / 0x1000 % 2 == 0
    ensures addr / 0x1000 % 2 == 1 ==> start / 0x1000 + 1 == addr / 0x1000
  {
  }

  /** The loop of mmap_syscall. */
  method MapUserRun(k: Kernel, pml4: nat, addr: nat, start: nat, n: nat, flags: Flags, ghost r: nat)
    requires pml4 == r * 0x1000 && start % 0x1000 == 0
    requires k.Valid() && RunReady(k.Abs(), r, MmapRun(addr / 0x1000, start / 0x1000, n), flags)
    modifies k`mem, k`tables, k.pmm`lastIdx, k.pmm`lastBit, k.pmm`reserved, k.pmm.bitmap
    ensures k.Valid()
    ensures k.Abs() == MapAll(old(k.Abs()), r, MmapRun(addr / 0x1000, start / 0x1000, n), n, flags)
  {
    ghost var js := MmapRun(addr / 0x1000, start / 0x1000, n);
    ghost var ss := RunTrace(k.Abs(), r, js, flags, n);
    MmapLoop(k, pml4, addr, start, n, flags, r, js, ss);
  }

  method MmapLoop(k: Kernel, pml4: nat, addr: nat, start: nat, n: nat, flags: Flags, ghost r: nat,
                  ghost js: seq<Job>, ghost ss: seq<Space>)
    requires pml4 == r * 0x1000 && start % 0x1000 == 0 && js == MmapRun(addr / 0x1000, start / 0x1000, n)
    requires k.Valid() && Trace(ss, r, js, flags, n) && k.Abs() == ss[0]
    modifies k`mem, k`tables, k.pmm`lastIdx, k.pmm`lastBit, k.pmm`reserved, k.pmm.bitmap
    ensures k.Valid() && k.Abs() == ss[n]
  {
    for i := 0 to n
      invariant k.Valid() && k.Abs() == ss[i]
    {
      var page, frame := MmapTarget(addr, start, n, i);
      MapJob(k, pml4, page, frame, flags, r, js[i], ss[i + 1]);
    }
  }

  /** to_page and to_frame of the next addresses; the product of a 32-bit index and an int keeps
      32 bits. */
  method MmapTarget(addr: nat, start: nat, n: nat, i: nat) returns (page: nat, frame: nat)
    requires i < n && start % 0x1000 == 0
    ensures frame % 0x1000 == 0
    ensures MmapRun(addr / 0x1000, start / 0x1000, n)[i] == Job(PageOf(page), frame / 0x1000)
  {
    page := (addr + i * 0x1000 % 0x1_0000_0000) / 0x1000 * 0x1000;
    frame := (start + i * 0x1000 % 0x1_0000_0000) / 0x1000 * 0x1000;
    OffsetWraps(i);
    RunAddresses(addr, start, i % WRAP);
  }

  lemma OffsetWraps(i: nat)
    ensures i * 0x1000 % 0x1_0000_0000 == i % WRAP * 0x1000
  {
    var q := i / WRAP;
    assert i * 0x1000 == q * 0x1_0000_0000 + i % WRAP * 0x1000;
  }

  /** What mmap does to `s`: nothing but frames for new tables is taken besides the run, the first
      2^20 pages lead to the run, and every other page of every space to what it led to before. */
  ghost predicate Mmapped(s: Space, r: nat, addr: nat, len: nat, prot: Prot, s': Space) {
    var s1, f := Taken(s, MmapPages(len)), Alloc(s.pmm, MmapPages(len)).0;
    && IsRoot(s1, r) && Grows(s1, s')
    && RangeMapped(s1, r, addr / 0x1000, f, PagesMapped(len), UserFlags(prot), s')
  }

  /** The effect of mmap for every length. */
  lemma MmapEffect(s: Space, r: nat, addr: nat, len: nat, prot: Prot, s': Space)
    requires Inv(s) && CanMmap(s, r, addr, len, prot) && s' == MmapState(s, r, addr, len, prot)
    ensures Inv(s') && Mmapped(s, r, addr, len, prot, s')
  {
    var n := MmapPages(len);
    var s1, f := Taken(s, n), Alloc(s.pmm, n).0;
    var js := MmapRun(addr / 0x1000, f, n);
    MmapReady(s, r, addr, len, prot, s1, f);
    MapAllSound(s1, r, js, n, UserFlags(prot), s');
    MmapIsRange(s1, r, addr / 0x1000, f, n, UserFlags(prot), s');
  }

  lemma MmapIsRange(s: Space, r: nat, page: nat, frame: nat, n: nat, flags: Flags, s': Space)
    requires page + Turns(n) <= PAGES
    requires GraphMapped(s, r, Graph(MmapRun(page, frame, n), n), flags, s')
    ensures RangeMapped(s, r, page, frame, Turns(n), flags, s')
  {
    forall u: nat, q: Page | IsRoot(s, u)
      ensures LeafEntry(s'.mem, u, 4, q)
              == if InRun(r, page, Turns(n), u, q) then Entry(frame + (Number(q) - page), flags)
                 else LeafEntry(s.mem, u, 4, q)
    {
      MmapGraph(page, frame, n, n, q);
    }
  }

  /** Byte `d` lies in one of the pages mapped. */
  ghost predicate InMapping(addr: nat, len: nat, d: nat) {
    (addr + d) / 0x1000 < addr / 0x1000 + PagesMapped(len)
  }

  /** A mapped page leads to its frame, a page outside the run to what it led to before. */
  lemma MmapPage(s: Space, r: nat, addr: nat, len: nat, prot: Prot, s': Space, q: Page)
    requires Mmapped(s, r, addr, len, prot, s') && prot.read
    ensures var f := Alloc(s.pmm, MmapPages(len)).0;
      Translate(s'.mem, r, q)
      == if addr / 0x1000 <= Number(q) < addr / 0x1000 + PagesMapped(len) then Some(f + (Number(q) - addr / 0x1000))
         else Translate(s.mem, r, q)
  {
  }

  lemma ByteOffsets(addr: nat, d: nat, f: nat, g: nat)
    requires g == f + ((addr + d) / 0x1000 - addr / 0x1000)
    ensures g * 0x1000 + (addr + d) % 0x1000 == f * 0x1000 + addr % 0x1000 + d
  {
  }

  lemma LaterPage(addr: nat, d: nat)
    ensures addr / 0x1000 <= (addr + d) / 0x1000
  {
  }

  lemma MmapPageNumbered(s: Space, r: nat, addr: nat, len: nat, prot: Prot, s': Space, q: Page,
                         first: nat, a: nat, f: nat, g: nat)
    requires Mmapped(s, r, addr, len, prot, s') && prot.read && first == addr / 0x1000 && Number(q) == a
    requires first <= a < first + PagesMapped(len) && f == Alloc(s.pmm, MmapPages(len)).0 && g == f + (a - first)
    ensures Translate(s'.mem, r, q) == Some(g) && f <= g < f + MmapPages(len)
  {
    MmapPage(s, r, addr, len, prot, s', q);
  }

  /** The same for the page `q` of byte `d`. */
  lemma MmapByte(s: Space, r: nat, addr: nat, len: nat, prot: Prot, s': Space, q: Page, d: nat)
    requires Mmapped(s, r, addr, len, prot, s') && prot.read && InMapping(addr, len, d)
    requires Number(q) == (addr + d) / 0x1000
    ensures var f := Alloc(s.pmm, MmapPages(len)).0;
      var g := f + ((addr + d) / 0x1000 - addr / 0x1000);
      && Translate(s'.mem, r, q) == Some(g)
      && g * 0x1000 + (addr + d) % 0x1000 == f * 0x1000 + addr % 0x1000 + d
      && f <= g < f + MmapPages(len)
  {
    var f := Alloc(s.pmm, MmapPages(len)).0;
    var first, a: nat := addr / 0x1000, (addr + d) / 0x1000;
    LaterPage(addr, d);
    MmapPageNumbered(s, r, addr, len, prot, s', q, first, a, f, f + (a - first));
    ByteOffsets(addr, d, f, f + (a - first));
  }

  lemma ByteNumber(addr: nat, len: nat, d: nat)
    requires InMapping(addr, len, d) && addr / 0x1000 + PagesMapped(len) <= PAGES
    ensures Number(PageOf(addr + d)) == (addr + d) / 0x1000
  {
    NumberOfByte(addr + d);
  }

  /** Byte `d` of the mapping ends up at offset `d` of one contiguous run of frames. */
  lemma MmapTranslates(s: Space, r: nat, addr: nat, len: nat, prot: Prot, s': Space, d: nat)
    requires Mmapped(s, r, addr, len, prot, s') && prot.read && InMapping(addr, len, d)
    requires addr / 0x1000 + PagesMapped(len) <= PAGES
    ensures var f := Alloc(s.pmm, MmapPages(len)).0;
      var g := f + ((addr + d) / 0x1000 - addr / 0x1000);
      && Translate(s'.mem, r, PageOf(addr + d)) == Some(g)
      && g * 0x1000 + (addr + d) % 0x1000 == f * 0x1000 + addr % 0x1000 + d
      && f <= g < f + MmapPages(len)
  {
    ByteNumber(addr, len, d);
    MmapByte(s, r, addr, len, prot, s', PageOf(addr + d), d);
  }

  /** mmap keeps processor and software walk in step, so the processor finds the byte there. */
  lemma MmapReaches(s: Space, r: nat, addr: nat, len: nat, prot: Prot, s': Space, d: nat)
    requires Inv(s) && HwAgrees(s) && CanMmap(s, r, addr, len, prot) && s' == MmapState(s, r, addr, len, prot)
    requires prot.read && InMapping(addr, len, d)
    ensures HwAgrees(s')
    ensures HwFrame(s'.mem, r, PageOf(addr + d))
            == Some(Alloc(s.pmm, MmapPages(len)).0 + ((addr + d) / 0x1000 - addr / 0x1000))
  {
    MmapEffect(s, r, addr, len, prot, s');
    MmapAgrees(s, r, addr, len, prot, s');
    MmapTranslates(s, r, addr, len, prot, s', d);
    AgreesAt(s', r, PageOf(addr + d));
  }

  lemma AgreesAt(s: Space, u: nat, q: Page)
    requires HwAgrees(s) && IsRoot(s, u)
    ensures HwFrame(s.mem, u, q) == Translate(s.mem, u, q)
  {
  }

  lemma MmapAgrees(s: Space, r: nat, addr: nat, len: nat, prot: Prot, s': Space)
    requires Inv(s) && HwAgrees(s) && CanMmap(s, r, addr, len, prot) && s' == MmapState(s, r, addr, len, prot)
    ensures HwAgrees(s') && IsRoot(s', r)
  {
    var n := MmapPages(len);
    var s1, f := Taken(s, n), Alloc(s.pmm, n).0;
    MmapReady(s, r, addr, len, prot, s1, f);
    SameAgrees(s, s1);
    MapAllAgrees(s1, r, MmapRun(addr / 0x1000, f, n), n, UserFlags(prot), s');
    MapAllSound(s1, r, MmapRun(addr / 0x1000, f, n), n, UserFlags(prot), s');
  }

  lemma NumberOfByte(va: nat)
    requires va / 0x1000 < PAGES
    ensures Number(PageOf(va)) == va / 0x1000
  {
    PageOfByte(va);
    NumberOf(va / 0x1000);
  }

  /** Every byte of the request is mapped if and only if the offset into the first page and that
      into the last one fit into one page together, and the request ends within 4 GiB of the
      start of its first page. */
  lemma MmapCovers(addr: nat, len: nat)
    requires 0 < len
    ensures (forall d: nat :: d < len ==> InMapping(addr, len, d))
            <==> addr % 0x1000 + len % 0x1000 <= 0x1000 && addr % 0x1000 + len <= 0x1_0000_0000
  {
    var last := len - 1;
    LastByte(addr, len);
    assert (forall d: nat :: d < len ==> InMapping(addr, len, d)) ==> InMapping(addr, len, last);
    forall d: nat | d < len && InMapping(addr, len, last) ensures InMapping(addr, len, d) {
      assert (addr + d) / 0x1000 <= (addr + last) / 0x1000;
    }
  }

  lemma LastByte(addr: nat, len: nat)
    requires 0 < len
    ensures InMapping(addr, len, len - 1)
            <==> addr % 0x1000 + len % 0x1000 <= 0x1000 && addr % 0x1000 + len <= 0x1_0000_0000
  {
    assert InMapping(addr, len, len - 1) <==> addr % 0x1000 + len <= PagesMapped(len) * 0x1000;
    if len / 0x1000 + 1 < 0x1_0000_0000 {
      assert MmapPages(len) == len / 0x1000 + 1;
    } else {
      assert PagesMapped(len) <= WRAP;
    }
  }

  /** One byte more than 4 GiB: 2^20 + 1 frames are taken, but the last byte stays where it was. */
  lemma MmapLosesByte(s: Space, r: nat, prot: Prot, s': Space)
    requires Mmapped(s, r, 0x80_0000_0000, 0x1_0000_0001, prot, s') && prot.read
    ensures MmapPages(0x1_0000_0001) == 0x10_0001 && !InMapping(0x80_0000_0000, 0x1_0000_0001, 0x1_0000_0000)
    ensures Translate(s'.mem, r, PageOf(0x81_0000_0000)) == Translate(s.mem, r, PageOf(0x81_0000_0000))
  {
    LongRequest(0x1_0000_0001);
    NumberOfByte(0x81_0000_0000);
    MmapPage(s, r, 0x80_0000_0000, 0x1_0000_0001, prot, s', PageOf(0x81_0000_0000));
  }

  lemma LongRequest(len: nat)
    requires len == 0x1_0000_0001
    ensures MmapPages(len) == 0x10_0001 && PagesMapped(len) == 0x10_0000
  {
  }

  // ---------- access rights ----------

  /** The entry of every page mapped: present, writeable as asked for, always the user's, with no
      other flag; as a word, the frame's address or-ed with the low two bits of prot and with 4. */
  lemma MmapEntries(s: Space, r: nat, addr: nat, len: nat, prot: Prot, s': Space, q: Page)
    requires Inv(s) && CanMmap(s, r, addr, len, prot) && s' == MmapState(s, r, addr, len, prot)
    requires addr / 0x1000 <= Number(q) < addr / 0x1000 + PagesMapped(len)
    ensures var e := LeafEntry(s'.mem, r, 4, q);
      && e.frame == Alloc(s.pmm, MmapPages(len)).0 + (Number(q) - addr / 0x1000)
      && (0 in e.flags <==> prot.read) && (1 in e.flags <==> prot.write) && 2 in e.flags
      && (forall b :: b in e.flags ==> b <= 2)
      && Word(e) == e.frame * 0x1000 + (if prot.read then 1 else 0) + (if prot.write then 2 else 0) + 4
  {
    MmapEffect(s, r, addr, len, prot, s');
    assert InRun(r, addr / 0x1000, PagesMapped(len), r, q);
    LowFlags(LeafEntry(s'.mem, r, 4, q));
  }

  /** A run with a bit among its flags leaves what the links permit as it is. */
  lemma {:induction false} RunPermits(s: Space, r: nat, js: seq<Job>, n: nat, flags: Flags, q: Page, b: nat)
    requires Runnable(s, r, js) && n <= |js| && b in flags
    ensures RoomFor(s, r, js, flags, n) ==>
              (LinksPermit(MapAll(s, r, js, n, flags).mem, r, 4, q, b) <==> LinksPermit(s.mem, r, 4, q, b))
    decreases n
  {
    if n > 0 {
      var k: nat := n - 1;
      RunPermits(s, r, js, k, flags, q, b);
      NextPermits(s, r, js, k, n, flags, q, b);
    }
  }

  lemma NextPermits(s: Space, r: nat, js: seq<Job>, k: nat, n: nat, flags: Flags, q: Page, b: nat)
    requires n == k + 1 <= |js| && b in flags
    ensures Runnable(s, r, js) && RoomFor(s, r, js, flags, n) ==>
              && RoomFor(s, r, js, flags, k)
              && (LinksPermit(MapAll(s, r, js, n, flags).mem, r, 4, q, b)
                  <==> LinksPermit(MapAll(s, r, js, k, flags).mem, r, 4, q, b))
  {
    if Runnable(s, r, js) && RoomFor(s, r, js, flags, n) {
      var a := MapAll(s, r, js, k, flags);
      RoomLast(s, r, js, flags, k);
      TurnReady(s, r, js, k, flags, a);
      MapLinksPermit(a, r, js[k].page, Entry(js[k].frame, flags), MapAll(s, r, js, n, flags), r, q, b);
    }
  }

  /** A page mapped readable may be written by the processor if and only if that was asked for and
      the present links already on its way are writeable; likewise for the user's access. */
  lemma MmapPermits(s: Space, r: nat, addr: nat, len: nat, prot: Prot, s': Space, q: Page)
    requires Inv(s) && HwAgrees(s) && CanMmap(s, r, addr, len, prot) && s' == MmapState(s, r, addr, len, prot)
    requires prot.read && addr / 0x1000 <= Number(q) < addr / 0x1000 + PagesMapped(len)
    ensures HwPermits(s'.mem, r, q, WRITEABLE) <==> prot.write && LinksPermit(s.mem, r, 4, q, WRITEABLE)
    ensures HwPermits(s'.mem, r, q, USER) <==> LinksPermit(s.mem, r, 4, q, USER)
  {
    MmapEntries(s, r, addr, len, prot, s', q);
    MmapEffect(s, r, addr, len, prot, s');
    MmapAgrees(s, r, addr, len, prot, s');
    AgreesAt(s', r, q);
    PermitsLinks(s'.mem, s'.tables, s'.kernel, r, q, WRITEABLE);
    PermitsLinks(s'.mem, s'.tables, s'.kernel, r, q, USER);
    MmapRunPermits(s, r, addr, len, prot, s', q, USER);
    if prot.write {
      MmapRunPermits(s, r, addr, len, prot, s', q, WRITEABLE);
    }
  }

  lemma MmapRunPermits(s: Space, r: nat, addr: nat, len: nat, prot: Prot, s': Space, q: Page, b: nat)
    requires Inv(s) && CanMmap(s, r, addr, len, prot) && s' == MmapState(s, r, addr, len, prot) && b in UserFlags(prot)
    ensures LinksPermit(s'.mem, r, 4, q, b) <==> LinksPermit(s.mem, r, 4, q, b)
  {
    var n := MmapPages(len);
    var s1, f := Taken(s, n), Alloc(s.pmm, n).0;
    MmapReady(s, r, addr, len, prot, s1, f);
    RunPermits(s1, r, MmapRun(addr / 0x1000, f, n), n, UserFlags(prot), q, b);
  }
}
