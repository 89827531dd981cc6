/**
 Concrete machines: one that meets the invariant and the preconditions of every operation, one on
 which init_pmm can be started, and one whose free frames are not clean.
 */
module SmallMachine {
  import opened Wrappers
  import opened Frames
  import opened PageTables
  import opened Mapping
  import opened DirtyTables
  import opened Windowed
  import opened PageRanges
  import opened PageAllocation
  import opened AnonymousMmap
  import opened UserSpaces
  import opened SystemRuns
  import opened ProcessRuns
  import opened Permissions
  import opened Boot

  const KERNEL_FLAGS: Flags := {PRESENT, WRITEABLE}

  /** Five low tables that map themselves and hold the window's entry. */
  function Words(): Mem {
    map[Loc(1, 0) := Entry(2, KERNEL_FLAGS), Loc(2, 0) := Entry(3, KERNEL_FLAGS),
        Loc(3, 0) := Entry(4, KERNEL_FLAGS), Loc(3, 1) := Entry(5, KERNEL_FLAGS),
        Loc(4, 1) := Entry(1, KERNEL_FLAGS), Loc(4, 2) := Entry(2, KERNEL_FLAGS),
        Loc(4, 3) := Entry(3, KERNEL_FLAGS), Loc(4, 4) := Entry(4, KERNEL_FLAGS),
        Loc(4, 5) := Entry(5, KERNEL_FLAGS)]
  }

  function FiveTables(): Tables {
    map[1 := Node(4, Loc(0, 0)), 2 := Node(3, Loc(1, 0)), 3 := Node(2, Loc(2, 0)),
        4 := Node(1, Loc(3, 0)), 5 := Node(1, Loc(3, 1))]
  }

  /** 16 MiB of memory, everything from 8 MiB up free. */
  ghost function Machine(): Space {
    Space(Words(), Pmm(0x1000, Range(0, LOW), 0), FiveTables(), 1)
  }

  /** The memory holds the five inner words, and tables 1 to 5 are mapped at their own addresses. */
  ghost predicate Holds5(m: Mem) {
    && (forall t: nat, i: Index :: 1 <= t <= 3 ==>
          At(m, Loc(t, i)) == if i == 0 then Entry(t + 1, KERNEL_FLAGS)
                              else if t == 3 && i == 1 then Entry(5, KERNEL_FLAGS) else ZERO)
    && (forall i: Index :: 1 <= i <= 5 ==> At(m, Loc(4, i)) == Entry(i, KERNEL_FLAGS))
  }

  lemma WordsHold()
    ensures Holds5(Words())
  {
    forall t: nat, i: Index | 1 <= t <= 3
      ensures At(Words(), Loc(t, i)) == if i == 0 then Entry(t + 1, KERNEL_FLAGS)
                                        else if t == 3 && i == 1 then Entry(5, KERNEL_FLAGS) else ZERO
    {
      WordAt(t, i);
    }
  }

  lemma WordAt(t: nat, i: Index)
    requires 1 <= t <= 3
    ensures At(Words(), Loc(t, i)) == if i == 0 then Entry(t + 1, KERNEL_FLAGS)
                                      else if t == 3 && i == 1 then Entry(5, KERNEL_FLAGS) else ZERO
  {
  }

  /** Which table a word of the inner tables leads to. */
  lemma InnerWords(m: Mem)
    requires Holds5(m)
    ensures At(m, Loc(1, 0)) == Entry(2, KERNEL_FLAGS) && At(m, Loc(2, 0)) == Entry(3, KERNEL_FLAGS)
    ensures At(m, Loc(3, 0)) == Entry(4, KERNEL_FLAGS) && At(m, Loc(3, 1)) == Entry(5, KERNEL_FLAGS)
  {
  }

  lemma TableFacts(t: nat)
    ensures t in FiveTables() <==> 1 <= t <= 5
    ensures 1 <= t <= 5 ==> FiveTables()[t].level == if t <= 3 then 5 - t else 1
    ensures 2 <= t <= 5 ==> FiveTables()[t].up == if t == 5 then Loc(3, 1) else Loc(t - 1, 0)
  {
  }

  lemma FiveTree(m: Mem)
    requires Holds5(m)
    ensures Tree(m, FiveTables(), 1) && WindowReady(m, 1)
  {
    var T := FiveTables();
    InnerWords(m);
    forall t: nat ensures t in T <==> 1 <= t <= 5 { TableFacts(t); }
    forall t | t in T ensures 1 <= T[t].level <= 4 && (T[t].level == 4 ==> t == 1) { TableFacts(t); }
    TableFacts(1);
    forall t, i: Index | t in T && T[t].level >= 2 ensures SlotOk(m, T, 1, t, i) {
      TableFacts(t);
      FiveSlot(m, t, i);
    }
    forall t | t in T && T[t].level < 4 ensures Linked(m, T, t) {
      TableFacts(t);
      TableFacts(T[t].up.frame);
    }
  }

  lemma FiveSlot(m: Mem, t: nat, i: Index)
    requires Holds5(m) && 1 <= t <= 3 && t in FiveTables() && FiveTables()[t].level == 5 - t
    ensures SlotOk(m, FiveTables(), 1, t, i)
  {
    TableFacts(t + 1);
    TableFacts(5);
    assert At(m, Loc(t, i)) == if i == 0 then Entry(t + 1, KERNEL_FLAGS)
                               else if t == 3 && i == 1 then Entry(5, KERNEL_FLAGS) else ZERO;
  }

  lemma FiveIdentity(m: Mem, f: nat)
    requires Holds5(m) && 1 <= f <= 5
    ensures HwFrame(m, 1, LowPage(f)) == Some(f)
  {
    assert LowPage(f) == Page(0, 0, 0, f);
    ThroughFive(m, Page(0, 0, 0, f), 4);
  }

  /** The way through the inner tables to leaf table 4 or 5. */
  lemma ThroughFive(m: Mem, p: Page, leaf: nat)
    requires Holds5(m) && p.i4 == p.i3 == 0 && p.i2 <= 1 && leaf == 4 + p.i2
    ensures HwLeaf(m, 1, 4, p) == Some(Loc(leaf, p.i1))
  {
    assert At(m, Loc(1, 0)) == Entry(2, KERNEL_FLAGS) && At(m, Loc(2, 0)) == Entry(3, KERNEL_FLAGS);
    assert At(m, Loc(3, p.i2)) == Entry(leaf, KERNEL_FLAGS);
    assert HwLeaf(m, 3, 2, p) == HwLeaf(m, leaf, 1, p);
    assert HwLeaf(m, 2, 3, p) == HwLeaf(m, 3, 2, p);
  }

  lemma MachineFree(f: nat)
    ensures IsFree(Machine(), f) <==> LOW <= f < 0x1000
  {
    assert f in Range(0, LOW) <==> Within(0, LOW, f);
  }

  /** With all low frames reserved only the five tables need the identity mapping. */
  lemma MachineInv(m: Mem)
    requires Holds5(m)
    ensures Inv(Machine().(mem := m))
  {
    var s := Machine().(mem := m);
    FiveTree(m);
    assert forall k: nat :: k in Range(0, LOW) <==> Within(0, LOW, k);
    forall f: nat | Pinned(s, f) ensures HwFrame(m, 1, LowPage(f)) == Some(f) {
      assert f in FiveTables();
      FiveIdentity(m, f);
    }
  }

  lemma HighZero(f: nat)
    requires 6 <= f
    ensures Zeroed(Words(), f)
  {
  }

  /** The invariant of the memory subsystem holds of a real machine, with nothing held by clients. */
  lemma InvariantIsMet()
    ensures SystemInv(System(Machine(), [], {})) && ZeroFree(Machine())
  {
    WordsHold();
    MachineInv(Words());
    forall f: nat | IsFree(Machine(), f) ensures LOW <= f && Zeroed(Machine().mem, f) {
      MachineFree(f);
      HighZero(f);
    }
  }

  lemma {:induction false} SubsetSize(a: set<nat>, b: set<nat>)
    requires a <= b
    ensures |a| <= |b|
    decreases a
  {
    if a != {} {
      var x :| x in a;
      SubsetSize(a - {x}, b - {x});
    }
  }

  lemma MachineFrames()
    ensures |FreeSet(Machine().pmm)| >= 4
  {
    forall f: nat | f in {0x800, 0x801, 0x802, 0x803} ensures f in FreeSet(Machine().pmm) {
      MachineFree(f);
    }
    SubsetSize({0x800, 0x801, 0x802, 0x803}, FreeSet(Machine().pmm));
  }

  lemma ReadyCanMap(s: Space, p: Page, flags: Flags)
    requires Inv(s) && ZeroFree(s) && |FreeSet(s.pmm)| >= 3 && HighPage(p) && HUGE !in flags
    ensures MapReady(s, s.kernel, p, flags)
  {
    HighPageMappable(s, p);
    MissingBound(s.mem, s.kernel, 4, p);
    CleanWhenZeroFree(s, s.kernel, p, flags);
  }

  lemma ReadyCanCreate(s: Space)
    requires Inv(s) && ZeroFree(s) && HighFree(s) && |FreeSet(s.pmm)| >= 4 && s.pmm.frames <= PAGES
    ensures CanCreate(s)
  {
    TakesFree(s);
    var f, s1 := Alloc(s.pmm, 1).0, Taken(s, 1);
    assert FreeSet(s1.pmm) == FreeSet(s.pmm) - {f};
    TakeKeepsInv(s, 1);
    assert forall g: nat :: IsFree(s1, g) ==> IsFree(s, g);
    PageNoHigh(f);
    ReadyCanMap(s1, PageNo(f), ROOT_FLAGS);
  }

  /** On that machine every page from 8 MiB up can be mapped, and a new address space made. */
  lemma MachineCanMap(p: Page)
    requires HighPage(p)
    ensures MapReady(Machine(), 1, p, KERNEL_FLAGS) && CanCreate(Machine())
  {
    InvariantIsMet();
    MachineFrames();
    ReadyCanMap(Machine(), p, KERNEL_FLAGS);
    ReadyCanCreate(Machine());
  }

  /** A read-only page, and then a writeable one beside it: the processor reaches the second one, but
      does not let it be written, because the links were created for the first. */
  lemma ReadOnlyFirst(s: Space, p: Page, e: Entry, s1: Space, q: Page, e': Entry, s2: Space)
    requires s == Machine() && p == Page(1, 0, 0, 0) && q == Page(1, 0, 0, 1)
    requires e == Entry(0x900, {PRESENT, USER}) && e' == Entry(0x901, {PRESENT, WRITEABLE, USER})
    requires s1 == Map(s, 1, p, e) && s2 == Map(s1, 1, q, e')
    ensures HwFrame(s2.mem, 1, q) == Some(0x901) && !HwPermits(s2.mem, 1, q, WRITEABLE)
  {
    InvariantIsMet();
    MachineFrames();
    MachineMisses(s, p);
    RestrictedBeside(s, 1, p, e, s1, q, e', s2);
  }

  lemma RestrictedBeside(s: Space, k: nat, p: Page, e: Entry, s1: Space, q: Page, e': Entry, s2: Space)
    requires Inv(s) && ZeroFree(s) && |FreeSet(s.pmm)| >= 3 && s.kernel == k && Missing(s.mem, k, 4, p) > 0
    requires e.flags == {PRESENT, USER} && e'.flags == {PRESENT, WRITEABLE, USER}
    requires s1 == Map(s, k, p, e) && s2 == Map(s1, k, q, e')
    requires HighPage(p) && HighPage(q) && p.i4 == q.i4 && p.i3 == q.i3 && p.i2 == q.i2
    ensures HwFrame(s2.mem, k, q) == Some(e'.frame) && !HwPermits(s2.mem, k, q, WRITEABLE)
  {
    HighPageMappable(s1, q);
    ReadyCanMap(s, p, e.flags);
    FirstFlagsStay(s, k, p, e, s1, q, e', s2, WRITEABLE);
  }

  lemma MachineMisses(s: Space, p: Page)
    requires s == Machine() && p.i4 == 1
    ensures Missing(s.mem, 1, 4, p) > 0
  {
    WordsHold();
    assert At(s.mem, Loc(1, 1)) == ZERO;
  }

  /** On that machine a frame can be allocated, and a page mapped anywhere above 8 MiB by mmap. */
  lemma MachineCanServe(addr: nat, len: nat, prot: Prot)
    requires LOW <= addr / 0x1000 && addr / 0x1000 < PAGES && len < 0x1000
    ensures CanAllocate(Machine(), 1, KERNEL_FLAGS) && CanMmap(Machine(), 1, addr, len, prot)
  {
    InvariantIsMet();
    MachineFrames();
    ReadyCanAllocate(Machine());
    ReadyCanMmap(Machine(), addr, len, prot);
  }

  /** What is left after one frame is taken. */
  lemma AfterOne(s: Space, s1: Space, f: nat)
    requires Inv(s) && ZeroFree(s) && HighFree(s) && |FreeSet(s.pmm)| >= 4 && s.pmm.frames <= PAGES
    requires s1 == Taken(s, 1) && f == Alloc(s.pmm, 1).0
    ensures Inv(s1) && ZeroFree(s1) && |FreeSet(s1.pmm)| >= 3 && f != 0 && HighPage(PageNo(f))
  {
    TakesFree(s);
    TakeKeepsInv(s, 1);
    assert FreeSet(s1.pmm) == FreeSet(s.pmm) - {f};
    assert forall g: nat :: IsFree(s1, g) ==> IsFree(s, g);
    PageNoHigh(f);
  }

  lemma ReadyCanAllocate(s: Space)
    requires Inv(s) && ZeroFree(s) && HighFree(s) && |FreeSet(s.pmm)| >= 4 && s.pmm.frames <= PAGES
    ensures CanAllocate(s, 1, KERNEL_FLAGS)
  {
    var f, s1 := Alloc(s.pmm, 1).0, Taken(s, 1);
    AfterOne(s, s1, f);
    OnePageRoom(s1, PageRun(f, f, 1), KERNEL_FLAGS);
  }

  /** The parts of CanMmap. */
  lemma CanMmapFrom(s: Space, r: nat, addr: nat, len: nat, prot: Prot, n: nat, js: seq<Job>)
    requires n == MmapPages(len) && js == MmapRun(addr / 0x1000, Alloc(s.pmm, n).0, n)
    requires IsRoot(s, r) && addr / 0x1000 + PagesMapped(len) <= PAGES
    ensures AllMappable(s, js) && Room(Taken(s, n), r, js, UserFlags(prot)) ==> CanMmap(s, r, addr, len, prot)
  {
  }

  lemma ShortRequest(len: nat)
    requires len < 0x1000
    ensures MmapPages(len) == 1 && PagesMapped(len) == 1
  {
  }

  lemma ReadyCanMmap(s: Space, addr: nat, len: nat, prot: Prot)
    requires Inv(s) && ZeroFree(s) && HighFree(s) && |FreeSet(s.pmm)| >= 4 && s.pmm.frames <= PAGES
    requires LOW <= addr / 0x1000 && addr / 0x1000 < PAGES && len < 0x1000
    ensures CanMmap(s, s.kernel, addr, len, prot)
  {
    var f, s1 := Alloc(s.pmm, 1).0, Taken(s, 1);
    ShortRequest(len);
    AfterOne(s, s1, f);
    MmapOne(s, s1, addr / 0x1000, f, prot);
    CanMmapFrom(s, s.kernel, addr, len, prot, 1, MmapRun(addr / 0x1000, f, 1));
  }

  lemma MmapOne(s: Space, s1: Space, page: nat, f: nat, prot: Prot)
    requires Inv(s1) && ZeroFree(s1) && |FreeSet(s1.pmm)| >= 3 && LOW <= page < PAGES
    ensures Room(s1, s1.kernel, MmapRun(page, f, 1), UserFlags(prot)) && AllMappable(s, MmapRun(page, f, 1))
  {
    PageNoHigh(page);
    HighPageMappable(s, PageNo(page));
    OnePageRoom(s1, MmapRun(page, f, 1), UserFlags(prot));
  }

  lemma OnePageRoom(s: Space, js: seq<Job>, flags: Flags)
    requires Inv(s) && ZeroFree(s) && |FreeSet(s.pmm)| >= 3 && HUGE !in flags && |js| == 1 && HighPage(js[0].page)
    ensures Room(s, s.kernel, js, flags)
  {
    ReadyCanMap(s, js[0].page, flags);
    assert RoomFor(s, s.kernel, js, flags, 0);
  }

  /** The processor reaches what the software walk finds: all links are present. */
  lemma MachineAgrees(s: Space)
    requires Inv(s) && Holds5(s.mem) && s.tables == FiveTables()
    ensures HwAgrees(s)
  {
    forall u, i: Index | u in s.tables && s.tables[u].level >= 2 && At(s.mem, Loc(u, i)).frame != 0
      ensures Present(At(s.mem, Loc(u, i)))
    {
      TableFacts(u);
    }
    AllPresentAgrees(s);
  }

  // ---------- machines without frames ----------

  /** No frame is free. */
  ghost function FullMachine(): Space {
    Machine().(pmm := Pmm(0x1000, Range(0, 0x1000), 0))
  }

  /** There the walk for page (1, 0, 0, 0) makes frame 0 a table. */
  lemma FullMachineFails()
    ensures var s := FullMachine();
      var s' := MapPath(s, 1, 4, Page(1, 0, 0, 0), KERNEL_FLAGS);
      Inv(s) && 0 in s'.tables && !Inv(s')
  {
    var s := FullMachine();
    var p := Page(1, 0, 0, 0);
    WordsHold();
    MachineInv(Words());
    MoreReserved(Machine(), s.pmm);
    assert FreeSet(s.pmm) == {} by {
      forall k: nat | k < 0x1000 ensures k in s.pmm.reserved { assert Within(0, 0x1000, k); }
    }
    assert At(s.mem, Loc(1, 1)) == ZERO;
    NoFrameLeft(s.pmm);
    var s1 := EnsureTable(s, 1, 4, 1, KERNEL_FLAGS).0;
    NullTableStays(s1, 0, 3, p, KERNEL_FLAGS);
  }

  lemma MoreReserved(s: Space, p: Pmm)
    requires s == Machine().(mem := s.mem) && Inv(s) && p.frames == 0x1000 && p.cursor == 0
    requires p.reserved <= Range(0, 0x1000) && Range(0, LOW) <= p.reserved
    ensures Inv(s.(pmm := p))
  {
    assert Within(0, LOW, 0) && 0 in Range(0, LOW);
    forall k: nat | k in p.reserved ensures k < 0x1000 { assert k in Range(0, 0x1000); }
    PmmShrinks(s, p);
  }

  /** Six frames are free, no two of them next to each other. */
  const HOLES: set<nat> := {0x900, 0x902, 0x904, 0x906, 0x908, 0x90a}

  ghost function Holey(): Pmm {
    Pmm(0x1000, Range(0, 0x1000) - HOLES, 0)
  }

  lemma HoleyReserved(k: nat)
    ensures k in Holey().reserved <==> k < 0x1000 && k !in HOLES
  {
    assert k in Range(0, 0x1000) <==> Within(0, 0x1000, k);
  }

  lemma HoleyFrames()
    ensures Ready(Holey()) && FreeSet(Holey()) == HOLES && Range(0, LOW) <= Holey().reserved
  {
    forall k: nat ensures k in Holey().reserved <==> k < 0x1000 && k !in HOLES { HoleyReserved(k); }
    forall k: nat | k in Range(0, LOW) ensures k in Holey().reserved { assert Within(0, LOW, k); }
    forall k: nat ensures k in FreeSet(Holey()) <==> k in HOLES { }
  }

  /** No two adjacent frames can be had. */
  lemma HoleyFails(p: Pmm)
    requires Ready(p) && forall k: nat :: k < p.frames && k !in p.reserved ==> k in HOLES
    ensures Alloc(p, 2).0 == 0
  {
    AllocNextFit(p, 2);
    forall t: nat ensures !FreeRun(p, t, 2) {
      assert t !in HOLES || t + 1 !in HOLES;
    }
  }

  /** The five-table machine with these frames and a process's root at frame 0x800. */
  ghost function Fragmented(): Space {
    WithRoot(Machine().(pmm := Holey()), 0x800)
  }

  lemma HoleyMachine(s0: Space)
    requires s0 == Machine().(pmm := Holey())
    ensures Inv(s0) && HwAgrees(s0) && FreeSet(s0.pmm) == HOLES && 0x800 in s0.pmm.reserved
  {
    WordsHold();
    MachineInv(Words());
    HoleyFrames();
    HoleyReserved(0x800);
    MoreReserved(Machine(), Holey());
    MachineAgrees(s0);
  }

  lemma FragmentedInv()
    ensures ProcessInv(System(Fragmented(), [], {})) && ZeroFree(Fragmented()) && IsRoot(Fragmented(), 0x800)
  {
    var s0 := Machine().(pmm := Holey());
    HoleyMachine(s0);
    HoleyRoot(s0, Fragmented());
  }

  /** A process's root added to a machine whose free frames are the holes. */
  lemma HoleyRoot(s0: Space, s: Space)
    requires Inv(s0) && HwAgrees(s0) && FreeSet(s0.pmm) == HOLES && 0x800 in s0.pmm.reserved
    requires s0.tables == FiveTables() && s0.kernel == 1 && s0.mem == Words() && s == WithRoot(s0, 0x800)
    ensures ProcessInv(System(s, [], {})) && ZeroFree(s) && IsRoot(s, 0x800)
  {
    TableFacts(0x800);
    RootKeeps(s0, 0x800);
    RootAgrees(s0, 0x800);
    forall f: nat | IsFree(s, f) ensures LOW <= f && Zeroed(s.mem, f) {
      assert f in FreeSet(s0.pmm);
      HoleZeroed(s0, f);
    }
    forall u: nat, q: Page | OwnPage(s, u, q) ensures Translate(s.mem, u, q) == None {
      RootPages(s0, u, q);
    }
  }

  lemma HoleZeroed(s0: Space, f: nat)
    requires s0.mem == Words() && f in HOLES
    ensures Zeroed(WithRoot(s0, 0x800).mem, f)
  {
    HighZero(f);
    forall i: Index ensures At(WithRoot(s0, 0x800).mem, Loc(f, i)) == ZERO { RootWordsAside(s0, 0x800, Loc(f, i)); }
  }

  lemma RootPages(s0: Space, u: nat, q: Page)
    requires Inv(s0) && s0.tables == FiveTables() && s0.kernel == 1 && 0x800 in s0.pmm.reserved
    requires OwnPage(WithRoot(s0, 0x800), u, q)
    ensures Translate(WithRoot(s0, 0x800).mem, u, q) == None
  {
    TableFacts(u);
    TableFacts(1);
    TableFacts(0x800);
    RootView(s0, 0x800, 1, q);
  }

  const DATA: nat := 0x80_0000_0000
  const ALL: Prot := Prot(true, true, true)

  /** A process there can ask for two pages: the tables for them find clean frames, the pages do not. */
  lemma FragmentedCanMmap()
    ensures Alloc(Fragmented().pmm, 2).0 == 0 && CanMmap(Fragmented(), 0x800, DATA, 0x1000, ALL)
  {
    FragmentedInv();
    HoleyFrames();
    TwoPages(Fragmented());
  }

  /** A failed allocation leaves the state as it was, the cursor aside. */
  lemma FailedTake(s: Space, n: nat)
    requires Inv(s) && ZeroFree(s) && n > 0 && Alloc(s.pmm, n).0 == 0
    ensures Inv(Taken(s, n)) && ZeroFree(Taken(s, n)) && FreeSet(Taken(s, n).pmm) == FreeSet(s.pmm)
  {
    AllocNextFit(s.pmm, n);
    TakeKeepsInv(s, n);
    assert forall f: nat :: IsFree(Taken(s, n), f) <==> IsFree(s, f);
  }

  lemma RequestPages()
    ensures MmapPages(0x1000) == PagesMapped(0x1000) == 2 && DATA / 0x1000 == 0x800_0000
    ensures DATA / 0x1000 + 1 == 0x800_0001 && PageNo(0x800_0001).i4 == 1
  {
  }

  lemma SixHoles()
    ensures |HOLES| == 6
  {
  }

  lemma TwoPages(s: Space)
    requires Inv(s) && ZeroFree(s) && IsRoot(s, 0x800) && FreeSet(s.pmm) == HOLES
    ensures Alloc(s.pmm, 2).0 == 0 && CanMmap(s, 0x800, DATA, 0x1000, ALL)
  {
    var js := MmapRun(0x800_0000, 0, 2);
    assert forall k: nat :: k < s.pmm.frames && k !in s.pmm.reserved ==> k in FreeSet(s.pmm);
    HoleyFails(s.pmm);
    FailedTake(s, 2);
    SixHoles();
    RequestPages();
    TwoPagesRoom(Taken(s, 2), js);
    TwoPagesMappable(s, js);
    CanMmapFrom(s, 0x800, DATA, 0x1000, ALL, 2, js);
  }

  lemma TwoPagesMappable(s: Space, js: seq<Job>)
    requires js == MmapRun(0x800_0000, 0, 2)
    ensures AllMappable(s, js)
  {
    forall i: nat | i < 2 ensures Mappable(s, js[i].page) {
      WrappedTurn(i);
      PageNoHigh(0x800_0000 + i);
      HighPageMappable(s, js[i].page);
    }
  }

  lemma TwoPagesRoom(s: Space, js: seq<Job>)
    requires Inv(s) && ZeroFree(s) && IsRoot(s, 0x800) && |FreeSet(s.pmm)| >= 6 && js == MmapRun(0x800_0000, 0, 2)
    ensures Room(s, 0x800, js, UserFlags(ALL))
  {
    TwoPagesMappable(s, js);
    NeedsBound(s.mem, 0x800, js, 2);
    RoomWhenNeeds(s, 0x800, js, 2, UserFlags(ALL));
  }

  /** After mmap the process's second page leads the processor to frame 1, the kernel's root table,
      and one write of the process through it breaks the page tables. */
  lemma FragmentedMmap(w: System, w': System, w'': System)
    requires w == System(Fragmented(), [], {}) && w' == AfterMmap(w, 0x800, DATA, 0x1000, ALL)
    requires w'' == w'.(space := w'.space.(mem := w'.space.mem[Loc(1, 0) := ZERO]))
    ensures ProcessInv(w) && Goes(w', Poked(0x800, PageNo(0x800_0001), 0, ZERO), w'') && !Inv(w''.space)
  {
    FragmentedInv();
    FragmentedCanMmap();
    RequestPages();
    FailedMmapBreaks(w, 0x800, DATA, 0x1000, ALL, w', w'');
  }

  // ---------- a machine to start on ----------

  /** In addition the frames the temporary bitmap hands out are mapped at their own addresses. */
  function BootWords(): Mem {
    Words() + map i: nat | 1 <= i < 0x1e8 :: Loc(5, i) := Entry(0x200 + i, KERNEL_FLAGS)
  }

  function BootInfo(): MemoryInfo {
    MemoryInfo([Region(0, 0x1000_0000, true)], 0x80_0000, 0x1000, 0, 0)
  }

  lemma BootWordAt(l: Loc)
    ensures l.frame < 5 ==> At(BootWords(), l) == At(Words(), l)
    ensures l.frame == 5 && 1 <= l.index < 0x1e8 ==> At(BootWords(), l) == Entry(0x200 + l.index, KERNEL_FLAGS)
    ensures l.frame >= 6 ==> At(BootWords(), l) == ZERO
  {
  }

  /** The five words, the window table's entries for the frames of the temporary bitmap, and
      nothing in the frames above. */
  ghost predicate HoldsBoot(m: Mem) {
    && Holds5(m)
    && (forall i: Index :: 1 <= i < 0x1e8 ==> At(m, Loc(5, i)) == Entry(0x200 + i, KERNEL_FLAGS))
    && (forall f: nat :: f >= 6 ==> Zeroed(m, f))
  }

  lemma HoldsBelow(m: Mem, m': Mem)
    requires Holds5(m) && forall l: Loc :: l.frame < 5 ==> At(m', l) == At(m, l)
    ensures Holds5(m')
  {
  }

  lemma BootWordsHold()
    ensures HoldsBoot(BootWords())
  {
    WordsHold();
    forall l: Loc ensures l.frame < 5 ==> At(BootWords(), l) == At(Words(), l) { BootWordAt(l); }
    HoldsBelow(Words(), BootWords());
    forall i: Index | 1 <= i < 0x1e8 ensures At(BootWords(), Loc(5, i)) == Entry(0x200 + i, KERNEL_FLAGS) {
      BootWordAt(Loc(5, i));
    }
    forall f: nat | f >= 6 ensures Zeroed(BootWords(), f) {
      forall i: Index ensures At(BootWords(), Loc(f, i)) == ZERO { BootWordAt(Loc(f, i)); }
    }
  }

  lemma BootInv(s: Space)
    requires HoldsBoot(s.mem) && s == Space(s.mem, TmpPmm(), FiveTables(), 1)
    ensures Inv(s) && ZeroFree(s)
  {
    FiveTree(s.mem);
    assert forall k: nat :: k in Range(0, 0x201) <==> Within(0, 0x201, k);
    forall t: nat ensures t in FiveTables() <==> 1 <= t <= 5 { TableFacts(t); }
    forall f: nat | Pinned(s, f) ensures HwFrame(s.mem, 1, LowPage(f)) == Some(f) {
      if f <= 5 {
        FiveIdentity(s.mem, f);
      } else {
        BootIdentity(s.mem, f);
      }
    }
  }

  lemma BootIdentity(m: Mem, f: nat)
    requires HoldsBoot(m) && 0x201 <= f < 0x3e8
    ensures HwFrame(m, 1, LowPage(f)) == Some(f)
  {
    assert LowPage(f) == Page(0, 0, 1, f - 0x200);
    ThroughFive(m, Page(0, 0, 1, f - 0x200), 5);
  }

  lemma BootFrames(s: Space)
    requires s.pmm == TmpPmm()
    ensures |FreeSet(s.pmm)| >= 9
  {
    var some := {0x201, 0x202, 0x203, 0x204, 0x205, 0x206, 0x207, 0x208, 0x209};
    assert forall k: nat :: k in Range(0, 0x201) <==> Within(0, 0x201, k);
    SubsetSize(some, FreeSet(s.pmm));
  }

  lemma ZeroFreeMask(s: Space)
    requires Inv(s) && ZeroFree(s)
    ensures Inv(Mask(s)) && ZeroFree(Mask(s))
  {
    MaskKeeps(s);
    forall f: nat | IsFree(Mask(s), f) ensures Zeroed(Mask(s).mem, f) {
      assert IsFree(s, f) && Zeroed(s.mem, f);
    }
  }

  /** Zero-filled free frames, three for each page, make a run ready. */
  lemma EnoughForRun(s: Space, page: nat, n: nat, flags: Flags)
    requires Inv(s) && ZeroFree(s) && LOW <= page && page + n <= PAGES && HUGE !in flags
    requires 3 * n <= |FreeSet(s.pmm)|
    ensures RunReady(s, s.kernel, PageRun(page, page, n), flags)
  {
    var js := PageRun(page, page, n);
    PageRunHigh(s, page, page, n);
    NeedsBound(s.mem, s.kernel, js, n);
    RoomWhenNeeds(s, s.kernel, js, n, flags);
  }

  lemma BootReadyOf(m: Mem)
    requires HoldsBoot(m)
    ensures BootReady(m, 1, FiveTables(), 0x80_1000, 0x2000)
  {
    var s := Space(m, TmpPmm(), FiveTables(), 1);
    BootInv(s);
    BootFrames(s);
    ZeroFreeMask(s);
    EnoughForRun(Mask(s), 0x801, 3, BITMAP_FLAGS);
  }

  /** init_pmm can be started: 256 MiB of memory, a kernel of one page at 8 MiB. */
  lemma BootIsMet()
    ensures InitReady(BootWords(), 1, FiveTables(), BootInfo(), 0x2001)
  {
    BootWordsHold();
    BootReadyOf(BootWords());
    BootInfoFacts();
  }

  lemma BootInfoFacts()
    ensures LastUsableEnd(BootInfo().regions) / 4096 / 8 == 0x2000 && BitmapAddr(BootInfo()) == 0x80_1000
    ensures InfoFits(0x2001, BootInfo(), 0x2000)
  {
    assert LastUsableEnd(BootInfo().regions) == 0x1000_0000;
  }

  // ---------- a machine with a dirty frame ----------

  /** Next-fit on a bitmap whose reserved frames are the first `f`. */
  lemma NextFrame(p: Pmm, f: nat)
    requires Ready(p) && p.reserved == Range(0, f) && p.cursor <= f < p.frames
    ensures Alloc(p, 1) == (f, Pmm(p.frames, Range(0, f + 1), f))
  {
    assert forall k: nat :: k in Range(0, f) <==> Within(0, f, k);
    RangeGrows(f);
    AllocNextFit(p, 1);
    AllocOne(p);
    assert FreeRun(p, f, 1);
    var g := Alloc(p, 1).0;
    assert FreeRun(p, g, 1) && g !in p.reserved;
  }

  lemma RangeGrows(f: nat)
    ensures Range(0, f) + {f} == Range(0, f + 1)
  {
    forall k: nat ensures k in Range(0, f) + {f} <==> k in Range(0, f + 1) {
      assert (k in Range(0, f) <==> Within(0, f, k)) && (k in Range(0, f + 1) <==> Within(0, f + 1, k));
    }
  }

  /** A word somebody left behind in free frame 0x900. */
  ghost function UsedMachine(e: Entry): Space {
    Machine().(mem := Words()[Loc(0x900, 0) := e])
  }

  /** Dirty free frames do not keep tables from being created in clean ones: page (1, 0, 0, 0),
      which misses three tables, can be mapped whatever frame 0x900 holds. */
  lemma UsedMachineMaps(e: Entry)
    ensures MapReady(UsedMachine(e), 1, Page(1, 0, 0, 0), KERNEL_FLAGS)
  {
    var s := UsedMachine(e);
    var p := Page(1, 0, 0, 0);
    UsedWords(e, s.mem);
    MachineInv(s.mem);
    MachineFrames();
    HighPageMappable(s, p);
    assert At(s.mem, Loc(1, 1)) == ZERO;
    ThreeTables(s, p);
    ThreeTablesReady(s, p);
  }

  lemma ThreeTablesReady(s: Space, p: Page)
    requires Inv(s) && IsRoot(s, 1) && Mappable(s, p) && 3 <= |FreeSet(s.pmm)| && CleanPath(s, 1, 4, p, KERNEL_FLAGS)
    ensures MapReady(s, 1, p, KERNEL_FLAGS)
  {
    MissingBound(s.mem, 1, 4, p);
  }

  lemma UsedWords(e: Entry, m: Mem)
    requires m == Words()[Loc(0x900, 0) := e]
    ensures Holds5(m) && Zeroed(m, 0x800) && Zeroed(m, 0x801) && Zeroed(m, 0x802)
  {
    WordsHold();
    forall l: Loc | l.frame != 0x900 ensures At(m, l) == At(Words(), l) {
    }
    HoldsBelow(Words(), m);
    HighZero(0x800);
    HighZero(0x801);
    HighZero(0x802);
  }

  lemma ThreeTables(s: Space, p: Page)
    requires Inv(s) && s.pmm == Pmm(0x1000, Range(0, LOW), 0) && 1 in s.tables && s.tables[1].level == 4
    requires At(s.mem, Loc(1, p.i4)) == ZERO && Zeroed(s.mem, 0x800) && Zeroed(s.mem, 0x801) && Zeroed(s.mem, 0x802)
    ensures CleanPath(s, 1, 4, p, KERNEL_FLAGS)
  {
    NextFrame(s.pmm, 0x800);
    var s1 := EnsureTable(s, 1, 4, p.i4, KERNEL_FLAGS).0;
    NextFrame(s1.pmm, 0x801);
    var s2 := EnsureTable(s1, 0x800, 3, p.i3, KERNEL_FLAGS).0;
    NextFrame(s2.pmm, 0x802);
    assert At(s1.mem, Loc(0x800, p.i3)) == ZERO && At(s2.mem, Loc(0x801, p.i2)) == ZERO;
    assert CleanPath(s2, 0x801, 2, p, KERNEL_FLAGS);
    assert CleanPath(s1, 0x800, 3, p, KERNEL_FLAGS);
  }

  const ALIAS: Page := Page(0, 1, 0, 3)

  /** The first free frame starts with a word that was once a link to table 4. */
  ghost function DirtyMachine(): Space {
    Machine().(mem := Words()[Loc(0x800, 0) := Entry(4, KERNEL_FLAGS)])
  }

  lemma DirtyMachineInv()
    ensures Inv(DirtyMachine()) && Holds5(DirtyMachine().mem)
    ensures At(DirtyMachine().mem, Loc(0x800, 0)) == Entry(4, KERNEL_FLAGS)
    ensures forall i: Index :: i != 0 ==> At(DirtyMachine().mem, Loc(0x800, i)) == ZERO
  {
    WordsHold();
    HighZero(0x800);
    forall l: Loc | l.frame != 0x800 ensures At(DirtyMachine().mem, l) == At(Words(), l) {
    }
    MachineInv(DirtyMachine().mem);
  }

  /** Creating the level-2 table for page (0, 1, 5, 0) there breaks the tree, and page (0, 1, 0, 3),
      which was never mapped, reads an entry of the live table 4. */
  lemma DirtyTableMisread()
    ensures var s := DirtyMachine();
      var (s', c) := EnsureTable(s, 2, 3, 1, KERNEL_FLAGS);
      && c == 0x800 && !CanEnsure(s, 2, 3, 1) && !Inv(s')
      && Translate(s.mem, 1, ALIAS) == None && Translate(s'.mem, 1, ALIAS) == Some(3)
  {
    var s := DirtyMachine();
    var m := s.mem;
    DirtyMachineInv();
    NextFrame(s.pmm, 0x800);
    var (s', c) := EnsureTable(s, 2, 3, 1, KERNEL_FLAGS);
    assert At(m, Loc(1, 0)) == Entry(2, KERNEL_FLAGS) && At(m, Loc(2, 1)) == ZERO;
    assert At(m, Loc(4, 3)) == Entry(3, KERNEL_FLAGS);
    assert !Quiet(At(m, Loc(0x800, 0)));
    MachineFree(0x800);
    assert 0x800 in FreeSet(s.pmm);
    DirtyWord(s, 2, 1, KERNEL_FLAGS, 0);
    AliasBefore(m);
    AliasAfter(s'.mem);
  }

  lemma AliasBefore(m: Mem)
    requires At(m, Loc(1, 0)).frame == 2 && At(m, Loc(2, 1)) == ZERO
    ensures Translate(m, 1, ALIAS) == None
  {
    assert LeafEntry(m, 2, 3, ALIAS) == ZERO;
    assert LeafEntry(m, 1, 4, ALIAS) == LeafEntry(m, 2, 3, ALIAS);
  }

  lemma AliasAfter(m: Mem)
    requires At(m, Loc(1, 0)).frame == 2 && At(m, Loc(2, 1)).frame == 0x800
    requires At(m, Loc(0x800, 0)).frame == 4 && At(m, Loc(4, 3)) == Entry(3, KERNEL_FLAGS)
    ensures Translate(m, 1, ALIAS) == Some(3)
  {
    assert LeafEntry(m, 4, 1, ALIAS) == At(m, Loc(4, 3));
    assert LeafEntry(m, 0x800, 2, ALIAS) == LeafEntry(m, 4, 1, ALIAS);
    assert LeafEntry(m, 2, 3, ALIAS) == LeafEntry(m, 0x800, 2, ALIAS);
    assert LeafEntry(m, 1, 4, ALIAS) == LeafEntry(m, 2, 3, ALIAS);
  }
}
