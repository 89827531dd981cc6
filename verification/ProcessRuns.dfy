/**
 Runs in which processes write whatever the processor lets them reach through their own pages above
 512 GiB.  While the kernel maps into user spaces only frames that are held, no such write can touch
 a page table; mmap keeps to that exactly if it finds a run of frames.
 */
module ProcessRuns {
  import opened Wrappers
  import opened Frames
  import opened FrameRuns
  import opened PageTables
  import opened Mapping
  import opened PageRanges
  import opened PageAllocation
  import opened AnonymousMmap
  import opened UserSpaces
  import opened SystemRuns

  /** A page of a process's own: above 2^39 in a space other than the kernel's. */
  ghost predicate OwnPage(s: Space, u: nat, q: Page) {
    IsRoot(s, u) && u != s.kernel && q.i4 != 0
  }

  /** Every present one leads to a frame somebody holds. */
  ghost predicate PagesHeld(w: System) {
    forall u: nat, q: Page ::
      OwnPage(w.space, u, q) && Translate(w.space.mem, u, q).Some? ==> Held(w.live, Translate(w.space.mem, u, q).value)
  }

  /** The kernel maps only held frames into processes' pages, and takes no block back that such a
      page still leads to. */
  ghost predicate Careful(w: System, ev: Event) {
    match ev
    case Mapped(r, p, e) => OwnPage(w.space, r, p) && Present(e) ==> Held(w.live, e.frame)
    case Gave(i) =>
      i < |w.live| ==>
        forall u: nat, q: Page :: OwnPage(w.space, u, q) && Translate(w.space.mem, u, q).Some? ==>
          !Holds(w.live[i], Translate(w.space.mem, u, q).value)
    case _ => true
  }

  datatype Step = Kernel(event: Event) | Poked(space: nat, page: Page, word: Index, value: Entry)

  /** A step of the kernel, or a write of the process running in a space through one of its pages. */
  ghost predicate Goes(w: System, st: Step, w': System) {
    match st
    case Kernel(ev) => Next(w, ev, w') && Careful(w, ev)
    case Poked(u, q, i, e) =>
      && OwnPage(w.space, u, q) && HwFrame(w.space.mem, u, q).Some?
      && w' == w.(space := w.space.(mem := w.space.mem[Loc(HwFrame(w.space.mem, u, q).value, i) := e]))
  }

  ghost predicate ProcessInv(w: System) {
    SystemInv(w) && HwAgrees(w.space) && PagesHeld(w)
  }

  // ---------- the kernel's steps ----------

  /** Where a process's page leads after a step of the kernel: as before, or as the step says. */
  lemma PageAfter(w: System, ev: Event, w': System, u: nat, q: Page)
    requires SystemInv(w) && Next(w, ev, w') && OwnPage(w'.space, u, q) && Translate(w'.space.mem, u, q).Some?
    ensures || (OwnPage(w.space, u, q) && Translate(w.space.mem, u, q) == Translate(w'.space.mem, u, q))
            || (ev.Mapped? && OwnPage(w.space, ev.root, ev.page) && Present(ev.entry)
                && Translate(w'.space.mem, u, q) == Some(ev.entry.frame))
  {
    match ev {
      case Mapped(r, p, e) =>
        MapRoots(w.space, r, p, e, u);
        MapKeeps(w.space, r, p, e);
        MapView(w.space, r, p, e, u, q);
      case Unmapped(r, p) => UnmapView(w.space, r, p, u, q);
      case Created(f) =>
        CreateRoots(w.space, f, w'.space, u);
        CreateEffect(w.space, f, w'.space);
      case Took(n) =>
      case Gave(i) =>
      case Wrote(l, e) => DataWriteView(w.space, l, e, u, q);
    }
  }

  /** Held frames stay held unless their block is given back. */
  lemma HeldAfter(w: System, ev: Event, w': System, g: nat)
    requires Next(w, ev, w') && Held(w.live, g)
    ensures Held(w'.live, g) || (ev.Gave? && ev.i < |w.live| && Holds(w.live[ev.i], g))
  {
    match ev {
      case Took(n) =>
        if Alloc(w.space.pmm, n).0 != 0 {
          HeldExtended(w.live, Block(Alloc(w.space.pmm, n).0, n), g);
        }
      case Gave(i) => HeldReduced(w.live, i, g);
      case _ =>
    }
  }

  lemma KernelKeeps(w: System, ev: Event, w': System)
    requires ProcessInv(w) && Next(w, ev, w') && Careful(w, ev)
    ensures ProcessInv(w')
  {
    NextKeeps(w, ev, w');
    NextAgrees(w, ev, w');
    forall u: nat, q: Page | OwnPage(w'.space, u, q) && Translate(w'.space.mem, u, q).Some?
      ensures Held(w'.live, Translate(w'.space.mem, u, q).value)
    {
      var g := Translate(w'.space.mem, u, q).value;
      PageAfter(w, ev, w', u, q);
      HeldBefore(w, ev, u, q, g);
      HeldAfter(w, ev, w', g);
    }
  }

  lemma HeldBefore(w: System, ev: Event, u: nat, q: Page, g: nat)
    requires PagesHeld(w) && Careful(w, ev)
    requires || (OwnPage(w.space, u, q) && Translate(w.space.mem, u, q) == Some(g))
             || (ev.Mapped? && OwnPage(w.space, ev.root, ev.page) && Present(ev.entry) && g == ev.entry.frame)
    ensures Held(w.live, g) && (ev.Gave? && ev.i < |w.live| ==> !Holds(w.live[ev.i], g))
  {
  }

  // ---------- the processes' writes ----------

  /** A process's write is a write to a held frame. */
  lemma PokeIsWrite(w: System, u: nat, q: Page, i: Index, e: Entry, w': System)
    requires ProcessInv(w) && Goes(w, Poked(u, q, i, e), w')
    ensures Next(w, Wrote(Loc(HwFrame(w.space.mem, u, q).value, i), e), w')
  {
    AgreesAt(w.space, u, q);
  }

  /** Every step keeps the invariant, and no process's write touches a table. */
  lemma GoesKeeps(w: System, st: Step, w': System)
    requires ProcessInv(w) && Goes(w, st, w')
    ensures ProcessInv(w')
    ensures st.Poked? ==> HwFrame(w.space.mem, st.space, st.page).value !in w.space.tables
  {
    match st {
      case Kernel(ev) => KernelKeeps(w, ev, w');
      case Poked(u, q, i, e) =>
        PokeIsWrite(w, u, q, i, e, w');
        KernelKeeps(w, Wrote(Loc(HwFrame(w.space.mem, u, q).value, i), e), w');
    }
  }

  ghost predicate IsProcessRun(ws: seq<System>, sts: seq<Step>) {
    |ws| == |sts| + 1 && forall i: nat :: i < |sts| ==> Goes(ws[i], sts[i], ws[i + 1])
  }

  /** The invariant, and with it the page tables, survive every run of kernel and processes. */
  lemma {:induction false} ProcessRunKeeps(ws: seq<System>, sts: seq<Step>, n: nat)
    requires IsProcessRun(ws, sts) && ProcessInv(ws[0]) && n < |ws|
    ensures ProcessInv(ws[n])
    decreases n
  {
    if n > 0 {
      ProcessRunKeeps(ws, sts, n - 1);
      GoesKeeps(ws[n - 1], sts[n - 1], ws[n]);
    }
  }

  /** In every state of every run a process's page leads the processor to a held frame that is no
      table, or nowhere. */
  lemma PagesLeadToHeld(ws: seq<System>, sts: seq<Step>, n: nat, u: nat, q: Page)
    requires IsProcessRun(ws, sts) && ProcessInv(ws[0]) && n < |ws|
    requires OwnPage(ws[n].space, u, q) && HwFrame(ws[n].space.mem, u, q).Some?
    ensures var g := HwFrame(ws[n].space.mem, u, q).value;
      Held(ws[n].live, g) && g !in ws[n].space.tables && g in ws[n].space.pmm.reserved && g !in ws[n].own
  {
    ProcessRunKeeps(ws, sts, n);
    AgreesAt(ws[n].space, u, q);
  }

  // ---------- mmap ----------

  /** The page leads to a held frame of block `b` that is no table. */
  ghost predicate LeadsInto(w: System, r: nat, q: Page, b: Block) {
    var f := Translate(w.space.mem, r, q);
    f.Some? && Holds(b, f.value) && Held(w.live, f.value) && f.value !in w.space.tables
  }

  ghost predicate InRequest(addr: nat, len: nat, q: Page) {
    addr / 0x1000 <= Number(q) < addr / 0x1000 + PagesMapped(len)
  }

  /** The system after an mmap. */
  ghost function AfterMmap(w: System, r: nat, addr: nat, len: nat, prot: Prot): System {
    var n := MmapPages(len);
    var f := Alloc(w.space.pmm, n).0;
    System(MmapState(w.space, r, addr, len, prot), if f == 0 then w.live else w.live + [Block(f, n)], w.own)
  }

  /** A page of a request that found its run. */
  lemma MmapPageHeld(w: System, r: nat, addr: nat, len: nat, prot: Prot, w': System, q: Page)
    requires SystemInv(w) && CanMmap(w.space, r, addr, len, prot) && prot.read
    requires MmapPages(len) > 0 && MmapPages(len) / 8 != 1 && Alloc(w.space.pmm, MmapPages(len)).0 != 0
    requires w' == AfterMmap(w, r, addr, len, prot) && InRequest(addr, len, q)
    ensures LeadsInto(w', r, q, Block(Alloc(w.space.pmm, MmapPages(len)).0, MmapPages(len)))
  {
    var n := MmapPages(len);
    var f := Alloc(w.space.pmm, n).0;
    var g := f + (Number(q) - addr / 0x1000);
    MmapEffect(w.space, r, addr, len, prot, w'.space);
    PageOfRun(w.space, r, addr, len, prot, w'.space, q, f, g);
    FrameOfRun(w, n, f, g, w'.space);
  }

  lemma PageOfRun(s: Space, r: nat, addr: nat, len: nat, prot: Prot, s': Space, q: Page, f: nat, g: nat)
    requires Mmapped(s, r, addr, len, prot, s') && prot.read && InRequest(addr, len, q)
    requires f == Alloc(s.pmm, MmapPages(len)).0 && g == f + (Number(q) - addr / 0x1000)
    ensures Translate(s'.mem, r, q) == Some(g) && f <= g < f + MmapPages(len)
  {
    MmapPage(s, r, addr, len, prot, s', q);
  }

  /** A frame of the run taken belongs to its taker and is no table. */
  lemma FrameOfRun(w: System, n: nat, f: nat, g: nat, s': Space)
    requires SystemInv(w) && n > 0 && n / 8 != 1 && f == Alloc(w.space.pmm, n).0 && f != 0 && f <= g < f + n
    requires Grows(Taken(w.space, n), s')
    ensures Holds(Block(f, n), g) && Held(w.live + [Block(f, n)], g) && g !in s'.tables
  {
    FreshFrame(w.space, n, g, Taken(w.space, n), s');
    HeldExtended(w.live, Block(f, n), g);
  }

  /** A page of a request that found none: it leads to the frame of its own place, counted from 0. */
  lemma FailedMmapPage(s: Space, r: nat, addr: nat, len: nat, prot: Prot, s': Space, q: Page)
    requires Mmapped(s, r, addr, len, prot, s') && prot.read && Alloc(s.pmm, MmapPages(len)).0 == 0
    requires InRequest(addr, len, q)
    ensures Translate(s'.mem, r, q) == Some(Number(q) - addr / 0x1000)
  {
    MmapPage(s, r, addr, len, prot, s', q);
  }

  lemma FirstPageOfRequest(addr: nat, len: nat)
    requires addr / 0x1000 + PagesMapped(len) <= PAGES && MmapPages(len) > 0
    ensures InRequest(addr, len, PageNo(addr / 0x1000)) && Number(PageNo(addr / 0x1000)) == addr / 0x1000
  {
    NumberOf(addr / 0x1000);
  }

  lemma NullIsNotHeld(w: System)
    requires SystemInv(w)
    ensures !Held(w.live, 0)
  {
  }

  /** With a count outside 8..15, every page mmap maps leads to a frame of the block it took, which
      the client holds and which is no table, if and only if there was a free run of that length. */
  lemma MmapSafeExact(w: System, r: nat, addr: nat, len: nat, prot: Prot, w': System)
    requires SystemInv(w) && CanMmap(w.space, r, addr, len, prot) && prot.read
    requires MmapPages(len) > 0 && MmapPages(len) / 8 != 1 && w' == AfterMmap(w, r, addr, len, prot)
    ensures (forall q: Page :: InRequest(addr, len, q) ==>
               LeadsInto(w', r, q, Block(Alloc(w.space.pmm, MmapPages(len)).0, MmapPages(len))))
            <==> exists t: nat :: FreeRun(w.space.pmm, t, MmapPages(len))
  {
    var n := MmapPages(len);
    var f := Alloc(w.space.pmm, n).0;
    AllocNextFit(w.space.pmm, n);
    if f != 0 {
      forall q: Page | InRequest(addr, len, q) ensures LeadsInto(w', r, q, Block(f, n)) {
        MmapPageHeld(w, r, addr, len, prot, w', q);
      }
    } else {
      var q := PageNo(addr / 0x1000);
      FirstPageOfRequest(addr, len);
      MmapEffect(w.space, r, addr, len, prot, w'.space);
      FailedMmapPage(w.space, r, addr, len, prot, w'.space, q);
      NullIsNotHeld(w);
      assert InRequest(addr, len, q) && !LeadsInto(w', r, q, Block(f, n));
    }
  }

  /** When there was none, a table below the number of pages is in the caller's reach. */
  lemma FailedMmapExposes(w: System, r: nat, addr: nat, len: nat, prot: Prot, w': System, t: nat)
    requires SystemInv(w) && HwAgrees(w.space) && CanMmap(w.space, r, addr, len, prot) && prot.read
    requires Alloc(w.space.pmm, MmapPages(len)).0 == 0 && w' == AfterMmap(w, r, addr, len, prot)
    requires t in w.space.tables && t < PagesMapped(len)
    ensures HwFrame(w'.space.mem, r, PageNo(addr / 0x1000 + t)) == Some(t) && t in w'.space.tables && !Held(w'.live, t)
  {
    MmapEffect(w.space, r, addr, len, prot, w'.space);
    MmapAgrees(w.space, r, addr, len, prot, w'.space);
    ExposedPage(w.space, r, addr, len, prot, w'.space, t);
  }

  lemma ExposedPage(s: Space, r: nat, addr: nat, len: nat, prot: Prot, s': Space, t: nat)
    requires Mmapped(s, r, addr, len, prot, s') && prot.read && Alloc(s.pmm, MmapPages(len)).0 == 0
    requires HwAgrees(s') && IsRoot(s', r) && t < PagesMapped(len) && addr / 0x1000 + PagesMapped(len) <= PAGES
    ensures HwFrame(s'.mem, r, PageNo(addr / 0x1000 + t)) == Some(t)
  {
    var q := PageNo(addr / 0x1000 + t);
    NumberOf(addr / 0x1000 + t);
    FailedMmapPage(s, r, addr, len, prot, s', q);
    AgreesAt(s', r, q);
  }

  /** If the kernel's own root is within that reach, a process can break the page tables. */
  lemma FailedMmapBreaks(w: System, r: nat, addr: nat, len: nat, prot: Prot, w': System, w'': System)
    requires SystemInv(w) && HwAgrees(w.space) && CanMmap(w.space, r, addr, len, prot) && prot.read
    requires Alloc(w.space.pmm, MmapPages(len)).0 == 0 && w' == AfterMmap(w, r, addr, len, prot)
    requires w.space.kernel < PagesMapped(len) && OwnPage(w.space, r, PageNo(addr / 0x1000 + w.space.kernel))
    requires w'' == w'.(space := w'.space.(mem := w'.space.mem[Loc(w.space.kernel, 0) := ZERO]))
    ensures Goes(w', Poked(r, PageNo(addr / 0x1000 + w.space.kernel), 0, ZERO), w'') && !Inv(w''.space)
  {
    FailedMmapExposes(w, r, addr, len, prot, w', w.space.kernel);
    KernelStays(w, r, addr, len, prot, w');
    PokeBreaks(w', r, PageNo(addr / 0x1000 + w.space.kernel), w'');
  }

  /** A process whose page leads to the kernel's root needs one write. */
  lemma PokeBreaks(w: System, u: nat, q: Page, w': System)
    requires OwnPage(w.space, u, q) && HwFrame(w.space.mem, u, q) == Some(w.space.kernel)
    requires w' == w.(space := w.space.(mem := w.space.mem[Loc(w.space.kernel, 0) := ZERO]))
    ensures Goes(w, Poked(u, q, 0, ZERO), w') && !Inv(w'.space)
  {
  }

  lemma KernelStays(w: System, r: nat, addr: nat, len: nat, prot: Prot, w': System)
    requires SystemInv(w) && CanMmap(w.space, r, addr, len, prot) && w' == AfterMmap(w, r, addr, len, prot)
    ensures w'.space.kernel == w.space.kernel && IsRoot(w'.space, r)
  {
    MmapEffect(w.space, r, addr, len, prot, w'.space);
  }

  // ---------- the clients' calls as runs of kernel and processes ----------

  /** Some run of kernel and processes leads from `w` to `w'`. */
  ghost predicate GoesTo(w: System, w': System) {
    exists ws: seq<System>, sts: seq<Step> :: IsProcessRun(ws, sts) && ws[0] == w && ws[|sts|] == w'
  }

  lemma GoesToKeeps(w: System, w': System)
    requires GoesTo(w, w') && ProcessInv(w)
    ensures ProcessInv(w')
  {
    var ws: seq<System>, sts: seq<Step> :| IsProcessRun(ws, sts) && ws[0] == w && ws[|sts|] == w';
    ProcessRunKeeps(ws, sts, |sts|);
  }

  lemma StepGoes(w: System, st: Step, w': System)
    requires Goes(w, st, w')
    ensures GoesTo(w, w')
  {
    assert IsProcessRun([w, w'], [st]);
  }

  lemma GoesOn(a: System, b: System, c: System)
    requires GoesTo(a, b) && GoesTo(b, c)
    ensures GoesTo(a, c)
  {
    var ws: seq<System>, sts: seq<Step> :| IsProcessRun(ws, sts) && ws[0] == a && ws[|sts|] == b;
    var ws': seq<System>, sts': seq<Step> :| IsProcessRun(ws', sts') && ws'[0] == b && ws'[|sts'|] == c;
    var l, ts := ws + ws'[1..], sts + sts';
    forall i: nat | i < |ts| ensures Goes(l[i], ts[i], l[i + 1]) {
      if i < |sts| {
        assert Goes(ws[i], sts[i], ws[i + 1]);
      } else {
        assert Goes(ws'[i - |sts|], sts'[i - |sts|], ws'[i - |sts| + 1]);
      }
    }
    assert IsProcessRun(l, ts) && l[0] == a && l[|ts|] == c;
  }

  /** Mapping pages to held frames. */
  lemma MapAllGoes(ss: seq<Space>, r: nat, js: seq<Job>, flags: Flags, live: seq<Block>, own: set<nat>)
    requires Trace(ss, r, js, flags, |js|) && forall i: nat :: i < |js| ==> Held(live, js[i].frame)
    ensures GoesTo(System(ss[0], live, own), System(ss[|js|], live, own))
  {
    var ws := seq(|ss|, i requires 0 <= i < |ss| => System(ss[i], live, own));
    var sts := seq(|js|, i requires 0 <= i < |js| => Kernel(Mapped(r, js[i].page, Entry(js[i].frame, flags))));
    forall i: nat | i < |sts| ensures Goes(ws[i], sts[i], ws[i + 1]) {
      assert MapsTo(ss[i], r, js[i], flags, ss[i + 1]);
    }
    assert IsProcessRun(ws, sts);
  }

  /** Taking a run of frames and mapping pages to frames of it. */
  lemma TakeAndMapGoes(w: System, n: nat, ss: seq<Space>, r: nat, js: seq<Job>, flags: Flags, live: seq<Block>)
    requires Trace(ss, r, js, flags, |js|) && Next(w, Took(n), System(ss[0], live, w.own))
    requires forall i: nat :: i < |js| ==> Held(live, js[i].frame)
    ensures GoesTo(w, System(ss[|js|], live, w.own))
  {
    StepGoes(w, Kernel(Took(n)), System(ss[0], live, w.own));
    MapAllGoes(ss, r, js, flags, live, w.own);
    GoesOn(w, System(ss[0], live, w.own), System(ss[|js|], live, w.own));
  }

  lemma BlockHeld(live: seq<Block>, f: nat, n: nat, g: nat)
    requires f <= g < f + n
    ensures Held(live + [Block(f, n)], g)
  {
    HeldExtended(live, Block(f, n), g);
  }

  /** An mmap that finds its run is a run of kernel and processes: it keeps their invariant. */
  lemma MmapGoes(w: System, r: nat, addr: nat, len: nat, prot: Prot)
    requires ProcessInv(w) && CanMmap(w.space, r, addr, len, prot)
    requires MmapPages(len) > 0 && MmapPages(len) / 8 != 1 && Alloc(w.space.pmm, MmapPages(len)).0 != 0
    ensures GoesTo(w, AfterMmap(w, r, addr, len, prot)) && ProcessInv(AfterMmap(w, r, addr, len, prot))
  {
    var n := MmapPages(len);
    var f := Alloc(w.space.pmm, n).0;
    var js := MmapRun(addr / 0x1000, f, n);
    var live := w.live + [Block(f, n)];
    MmapReady(w.space, r, addr, len, prot, Taken(w.space, n), f);
    var ss := RunTrace(Taken(w.space, n), r, js, UserFlags(prot), n);
    forall i: nat | i < n ensures Held(live, js[i].frame) {
      WrappedTurn(i);
      BlockHeld(w.live, f, n, f + i % WRAP);
    }
    TakeAndMapGoes(w, n, ss, r, js, UserFlags(prot), live);
    GoesToKeeps(w, AfterMmap(w, r, addr, len, prot));
  }

  /** So is an allocation. */
  lemma AllocateGoes(w: System, n: nat, flags: Flags)
    requires ProcessInv(w) && CanAllocate(w.space, n, flags) && n / 8 != 1
    ensures var w' := System(Allocate(w.space, n, flags), w.live + [Block(Alloc(w.space.pmm, n).0, n)], w.own);
      GoesTo(w, w') && ProcessInv(w')
  {
    var f := Alloc(w.space.pmm, n).0;
    var js := PageRun(f, f, n);
    var live := w.live + [Block(f, n)];
    AllocationMaps(w.space, n, flags, Taken(w.space, n), f);
    var ss := RunTrace(Taken(w.space, n), w.space.kernel, js, flags, n);
    forall i: nat | i < n ensures Held(live, js[i].frame) {
      BlockHeld(w.live, f, n, f + i);
    }
    TakeAndMapGoes(w, n, ss, w.space.kernel, js, flags, live);
    GoesToKeeps(w, System(Allocate(w.space, n, flags), live, w.own));
  }

  /** So is a new address space. */
  lemma CreateGoes(w: System)
    requires ProcessInv(w) && CanCreate(w.space)
    ensures var w' := System(Create(w.space), w.live, w.own); GoesTo(w, w') && ProcessInv(w')
  {
    var w' := System(Create(w.space), w.live, w.own);
    StepGoes(w, Kernel(Created(Alloc(w.space.pmm, 1).0)), w');
    GoesToKeeps(w, w');
  }
}
