/**
 Whole runs of the memory subsystem: any interleaving of mappings, unmappings, new address
 spaces, allocations, releases, and clients writing to frames they hold.
 */
module SystemRuns {
  import opened Frames
  import opened FrameRuns
  import opened PageTables
  import opened Mapping
  import opened PageRanges
  import opened PageAllocation
  import opened UserSpaces
  import opened AnonymousMmap

  /** The subsystem, the frame runs its clients hold, and the frames the allocator's own bitmap
      lies in. */
  datatype System = System(space: Space, live: seq<Block>, own: set<nat>)

  datatype Event =
    | Mapped(root: nat, page: Page, entry: Entry)
    | Unmapped(root: nat, page: Page)
    | Created(frame: nat)
    | Took(count: nat)
    | Gave(i: nat)
    | Wrote(loc: Loc, value: Entry)

  /** One step.  Tables are created in clean frames only; which frames are clean is up to what the
      run has written before. */
  ghost predicate Next(w: System, ev: Event, w': System) {
    var s, s' := w.space, w'.space;
    && w'.own == w.own
    && match ev
       case Mapped(r, p, e) => MapReady(s, r, p, e.flags) && s' == Map(s, r, p, e) && w'.live == w.live
       case Unmapped(r, p) => IsRoot(s, r) && Mappable(s, p) && s' == Unmap(s, r, p) && w'.live == w.live
       case Created(f) => f == Alloc(s.pmm, 1).0 && CanCreate(s) && s' == Create(s) && w'.live == w.live
       case Took(n) =>
         && n > 0 && n / 8 != 1 && s' == Taken(s, n)
         && w'.live == if Alloc(s.pmm, n).0 == 0 then w.live else w.live + [Block(Alloc(s.pmm, n).0, n)]
       case Gave(i) =>
         && i < |w.live| && w'.live == w.live[..i] + w.live[i + 1..]
         && s' == s.(pmm := Release(s.pmm, w.live[i].start, w.live[i].count))
       case Wrote(l, e) => Held(w.live, l.frame) && s' == s.(mem := s.mem[l := e]) && w'.live == w.live
  }

  /** Frames held by clients are reserved, high, and never page tables; no two runs overlap. */
  ghost predicate LiveOk(s: Space, live: seq<Block>) {
    && Disjoint(live)
    && forall k: nat :: Held(live, k) ==> k in s.pmm.reserved && k !in s.tables && LOW <= k
  }

  /** The bitmap's frames are reserved, no tables, and in no client's hands. */
  ghost predicate OwnOk(s: Space, live: seq<Block>, own: set<nat>) {
    forall k: nat :: k in own ==> k in s.pmm.reserved && k !in s.tables && !Held(live, k)
  }

  ghost predicate SystemInv(w: System) {
    Inv(w.space) && HighFree(w.space) && LiveOk(w.space, w.live) && OwnOk(w.space, w.live, w.own)
  }

  lemma GrowthKeepsLive(s: Space, s': Space, live: seq<Block>, own: set<nat>)
    requires Grows(s, s') && LiveOk(s, live) && HighFree(s) && OwnOk(s, live, own)
    ensures LiveOk(s', live) && HighFree(s') && OwnOk(s', live, own)
  {
    forall k: nat | k in own ensures k !in s'.tables {
      assert k in s'.tables ==> k in NewTables(s, s');
    }
    forall k: nat | Held(live, k) ensures k !in s'.tables {
      assert k in s'.tables ==> k in NewTables(s, s');
    }
    forall f: nat | IsFree(s', f) ensures IsFree(s, f) {
    }
  }

  lemma GrowthNone(s: Space, s': Space, live: seq<Block>, own: set<nat>)
    requires s'.pmm == s.pmm && s'.tables == s.tables && LiveOk(s, live) && HighFree(s) && OwnOk(s, live, own)
    ensures LiveOk(s', live) && HighFree(s') && OwnOk(s', live, own)
  {
    assert forall f: nat :: IsFree(s', f) <==> IsFree(s, f);
  }

  lemma TookKeeps(w: System, n: nat, w': System)
    requires SystemInv(w) && Next(w, Took(n), w')
    ensures SystemInv(w')
  {
    TakeKeepsInv(w.space, n);
    AllocNextFit(w.space.pmm, n);
    var (f, p) := Alloc(w.space.pmm, n);
    forall k: nat | IsFree(w'.space, k) ensures IsFree(w.space, k) {
    }
    if f != 0 {
      TouchedWhenGapFree(f, n);
      TookLive(w.space, w.live, Block(f, n), p);
      TookOwn(w.space, w.live, Block(f, n), p, w.own);
    }
  }

  lemma TookOwn(s: Space, live: seq<Block>, b: Block, p: Pmm, own: set<nat>)
    requires OwnOk(s, live, own) && FreeRun(s.pmm, b.start, b.count) && s.pmm.reserved <= p.reserved
    ensures OwnOk(s.(pmm := p), live + [b], own)
  {
    forall k: nat | k in own ensures !Held(live + [b], k) {
      HeldExtended(live, b, k);
    }
  }

  lemma TookLive(s: Space, live: seq<Block>, b: Block, p: Pmm)
    requires LiveOk(s, live) && HighFree(s) && FreeRun(s.pmm, b.start, b.count)
    requires p.reserved == s.pmm.reserved + Range(b.start, b.count) && forall t :: t in s.tables ==> t in s.pmm.reserved
    ensures LiveOk(s.(pmm := p), live + [b])
  {
    forall k: nat | Holds(b, k) ensures !Held(live, k) && IsFree(s, k) {
      assert k !in s.pmm.reserved;
    }
    TakeKeeps(live, b);
    forall k: nat | Held(live + [b], k) ensures k in p.reserved && k !in s.tables && LOW <= k {
      HeldExtended(live, b, k);
      if Holds(b, k) {
        assert Within(b.start, b.count, k) && IsFree(s, k);
      }
    }
  }

  lemma GaveKeeps(w: System, i: nat, w': System)
    requires SystemInv(w) && Next(w, Gave(i), w')
    ensures SystemInv(w')
  {
    var b := w.live[i];
    forall k | k in Touched(b.start, b.count) ensures k !in w.space.tables && LOW <= k {
      assert Holds(b, k) && Held(w.live, k);
    }
    GivenFrames(w.space, b);
    GaveLive(w.space, w.live, i);
    GaveOwn(w.space, w.live, i, w.own);
  }

  lemma GaveOwn(s: Space, live: seq<Block>, i: nat, own: set<nat>)
    requires OwnOk(s, live, own) && i < |live|
    ensures OwnOk(s.(pmm := Release(s.pmm, live[i].start, live[i].count)), live[..i] + live[i + 1..], own)
  {
    forall k: nat | k in own
      ensures k !in Touched(live[i].start, live[i].count) && !Held(live[..i] + live[i + 1..], k)
    {
      HeldReduced(live, i, k);
      assert Holds(live[i], k) ==> Held(live, k);
    }
  }

  lemma GivenFrames(s: Space, b: Block)
    requires Inv(s) && HighFree(s) && forall k :: k in Touched(b.start, b.count) ==> k !in s.tables && LOW <= k
    ensures Inv(s.(pmm := Release(s.pmm, b.start, b.count))) && HighFree(s.(pmm := Release(s.pmm, b.start, b.count)))
  {
    var s' := s.(pmm := Release(s.pmm, b.start, b.count));
    forall k: nat | IsFree(s', k) ensures LOW <= k {
      assert k in s.pmm.reserved ==> k in Touched(b.start, b.count);
      assert k !in s.pmm.reserved ==> IsFree(s, k);
    }
    GiveKeepsInv(s, b.start, b.count);
  }

  lemma GaveLive(s: Space, live: seq<Block>, i: nat)
    requires LiveOk(s, live) && i < |live|
    ensures LiveOk(s.(pmm := Release(s.pmm, live[i].start, live[i].count)), live[..i] + live[i + 1..])
  {
    var l := live[..i] + live[i + 1..];
    var b := live[i];
    assert forall j: nat :: j < |l| ==> l[j] == live[if j < i then j else j + 1];
    forall k: nat | Held(l, k) ensures Held(live, k) && k !in Touched(b.start, b.count) {
      HeldReduced(live, i, k);
      var j: nat :| j < |l| && Holds(l[j], k);
      if j < i { assert Apart(live[j], b); } else { assert Apart(b, live[j + 1]); }
    }
  }

  lemma WroteKeeps(w: System, l: Loc, e: Entry, w': System)
    requires SystemInv(w) && Next(w, Wrote(l, e), w')
    ensures SystemInv(w')
  {
    DataWriteKeeps(w.space, l, e);
    assert forall f: nat :: IsFree(w'.space, f) ==> IsFree(w.space, f);
  }

  lemma MappedKeeps(w: System, r: nat, p: Page, e: Entry, w': System)
    requires SystemInv(w) && Next(w, Mapped(r, p, e), w')
    ensures SystemInv(w')
  {
    MapKeeps(w.space, r, p, e);
    GrowthKeepsLive(w.space, w'.space, w.live, w.own);
  }

  /** Every step keeps the invariant. */
  lemma NextKeeps(w: System, ev: Event, w': System)
    requires SystemInv(w) && Next(w, ev, w')
    ensures SystemInv(w')
  {
    match ev {
      case Mapped(r, p, e) => MappedKeeps(w, r, p, e, w');
      case Unmapped(r, p) =>
        UnmapKeeps(w.space, r, p);
        assert w'.space.pmm == w.space.pmm && w'.space.tables == w.space.tables;
        GrowthNone(w.space, w'.space, w.live, w.own);
      case Created(f) =>
        CreateEffect(w.space, f, w'.space);
        GrowthKeepsLive(w.space, w'.space, w.live, w.own);
      case Took(n) => TookKeeps(w, n, w');
      case Gave(i) => GaveKeeps(w, i, w');
      case Wrote(l, e) => WroteKeeps(w, l, e, w');
    }
  }

  // ---------- runs ----------

  ghost predicate IsRun(ws: seq<System>, evs: seq<Event>) {
    |ws| == |evs| + 1 && forall i: nat :: i < |evs| ==> Next(ws[i], evs[i], ws[i + 1])
  }

  /** The invariant holds in every state of every run. */
  lemma {:induction false} RunKeeps(ws: seq<System>, evs: seq<Event>, n: nat)
    requires IsRun(ws, evs) && SystemInv(ws[0]) && n < |ws|
    ensures SystemInv(ws[n])
  {
    if n > 0 {
      RunKeeps(ws, evs, n - 1);
      NextKeeps(ws[n - 1], evs[n - 1], ws[n]);
    }
  }

  /** In every state of every run each link of a table leads to a frame that is reserved and in
      no client's hands, so taking a free frame's link for absent never loses a live table;
      and no other slot leads to the same table, slot 0 of the roots aside. */
  lemma LinksAreLive(ws: seq<System>, evs: seq<Event>, n: nat, t: nat, i: Index, u: nat, j: Index)
    requires IsRun(ws, evs) && SystemInv(ws[0]) && n < |ws|
    requires var s := ws[n].space;
      && t in s.tables && s.tables[t].level >= 2 && At(s.mem, Loc(t, i)).frame != 0
      && u in s.tables && s.tables[u].level >= 2 && At(s.mem, Loc(u, j)).frame == At(s.mem, Loc(t, i)).frame
    ensures var s := ws[n].space; var c := At(s.mem, Loc(t, i)).frame;
      && c in s.pmm.reserved && !Held(ws[n].live, c)
      && i == j && (t == u || (i == 0 && IsRoot(s, t) && IsRoot(s, u)))
  {
    RunKeeps(ws, evs, n);
    var s := ws[n].space;
    assert SlotOk(s.mem, s.tables, s.kernel, t, i) && SlotOk(s.mem, s.tables, s.kernel, u, j);
  }

  /** In every state of every run each table below the roots has its link, and every slot that
      leads to it is that one, as seen from the kernel's root. */
  lemma TablesLinkedOnce(ws: seq<System>, evs: seq<Event>, n: nat, t: nat, u: nat, j: Index)
    requires IsRun(ws, evs) && SystemInv(ws[0]) && n < |ws|
    requires var s := ws[n].space; t in s.tables && s.tables[t].level < 4 && u in s.tables && s.tables[u].level >= 2
    ensures var s := ws[n].space;
      && Linked(s.mem, s.tables, t)
      && (At(s.mem, Loc(u, j)).frame == t ==> s.tables[t].up == Canon(s.kernel, s.tables[u].level, u, j))
  {
    RunKeeps(ws, evs, n);
    var s := ws[n].space;
    assert Linked(s.mem, s.tables, t) && SlotOk(s.mem, s.tables, s.kernel, u, j);
  }

  // ---------- the allocator's own memory ----------

  /** No step writes a word of the bitmap's frames through a table or a client's frame. */
  lemma NextSparesBitmap(w: System, ev: Event, w': System, k: nat, i: Index)
    requires SystemInv(w) && Next(w, ev, w') && k in w.own
    ensures At(w'.space.mem, Loc(k, i)) == At(w.space.mem, Loc(k, i))
  {
    NextKeeps(w, ev, w');
    match ev {
      case Mapped(r, p, e) => MapKeeps(w.space, r, p, e);
      case Unmapped(r, p) => UnmapKeeps(w.space, r, p);
      case Created(f) => CreateEffect(w.space, f, w'.space);
      case Took(n) =>
      case Gave(j) =>
      case Wrote(l, e) =>
    }
  }

  /** In every state of every run the bitmap's frames are reserved, in no client's hands and no
      tables, and their contents are untouched. */
  lemma {:induction false} RunSparesBitmap(ws: seq<System>, evs: seq<Event>, n: nat, k: nat, i: Index)
    requires IsRun(ws, evs) && SystemInv(ws[0]) && n < |ws| && k in ws[0].own
    ensures ws[n].own == ws[0].own && k in ws[n].space.pmm.reserved && k !in ws[n].space.tables && !Held(ws[n].live, k)
    ensures At(ws[n].space.mem, Loc(k, i)) == At(ws[0].space.mem, Loc(k, i))
  {
    RunKeeps(ws, evs, n);
    if n > 0 {
      RunSparesBitmap(ws, evs, n - 1, k, i);
      RunKeeps(ws, evs, n - 1);
      NextSparesBitmap(ws[n - 1], evs[n - 1], ws[n], k, i);
    }
  }

  // ---------- translations ----------

  /** The event gives page `q` of space `u` a new entry. */
  ghost predicate Targets(w: System, ev: Event, u: nat, q: Page) {
    match ev
    case Mapped(r, p, _) => SamePage(r, p, u, q)
    case Unmapped(r, p) => SamePage(r, p, u, q)
    case Created(f) => SamePage(w.space.kernel, PageNo(f), u, q)
    case _ => false
  }

  /** One step changes the entries it targets and no others. */
  lemma NextView(w: System, ev: Event, w': System, u: nat, q: Page)
    requires SystemInv(w) && Next(w, ev, w') && IsRoot(w.space, u)
    ensures IsRoot(w'.space, u) && w'.space.kernel == w.space.kernel
    ensures !Targets(w, ev, u, q) ==> LeafEntry(w'.space.mem, u, 4, q) == LeafEntry(w.space.mem, u, 4, q)
  {
    match ev {
      case Mapped(r, p, e) =>
        MapKeeps(w.space, r, p, e);
        MapView(w.space, r, p, e, u, q);
      case Unmapped(r, p) => UnmapView(w.space, r, p, u, q);
      case Created(f) => CreateEffect(w.space, f, w'.space);
      case Took(n) =>
      case Gave(i) =>
      case Wrote(l, e) => DataWriteView(w.space, l, e, u, q);
    }
  }

  lemma {:induction false} KernelFixed(ws: seq<System>, evs: seq<Event>, n: nat, u: nat)
    requires IsRun(ws, evs) && SystemInv(ws[0]) && n < |ws| && IsRoot(ws[0].space, u)
    ensures IsRoot(ws[n].space, u) && ws[n].space.kernel == ws[0].space.kernel
  {
    if n > 0 {
      KernelFixed(ws, evs, n - 1, u);
      RunKeeps(ws, evs, n - 1);
      NextView(ws[n - 1], evs[n - 1], ws[n], u, WINDOW);
    }
  }

  lemma StepView(ws: seq<System>, evs: seq<Event>, i: nat, u: nat, q: Page)
    requires IsRun(ws, evs) && SystemInv(ws[0]) && i < |evs| && IsRoot(ws[0].space, u) && !Targets(ws[i], evs[i], u, q)
    ensures LeafEntry(ws[i + 1].space.mem, u, 4, q) == LeafEntry(ws[i].space.mem, u, 4, q)
  {
    RunKeeps(ws, evs, i);
    KernelFixed(ws, evs, i, u);
    NextView(ws[i], evs[i], ws[i + 1], u, q);
  }

  /** Over a whole run a page other than the window keeps its entry unless some step of the run
      names it. */
  lemma {:induction false} RunView(ws: seq<System>, evs: seq<Event>, n: nat, u: nat, q: Page)
    requires IsRun(ws, evs) && SystemInv(ws[0]) && n < |ws| && IsRoot(ws[0].space, u) && q != WINDOW
    requires forall i: nat :: i < n ==> !Targets(ws[i], evs[i], u, q)
    ensures LeafEntry(ws[n].space.mem, u, 4, q) == LeafEntry(ws[0].space.mem, u, 4, q)
  {
    if n > 0 {
      RunView(ws, evs, n - 1, u, q);
      StepView(ws, evs, n - 1, u, q);
    }
  }

  /** Separation: in every state of every run all spaces agree below 2^39 ... */
  lemma RunShares(ws: seq<System>, evs: seq<Event>, n: nat, u: nat, v: nat, q: Page)
    requires IsRun(ws, evs) && SystemInv(ws[0]) && n < |ws|
    requires IsRoot(ws[n].space, u) && IsRoot(ws[n].space, v) && q.i4 == 0
    ensures Translate(ws[n].space.mem, u, q) == Translate(ws[n].space.mem, v, q)
  {
    RunKeeps(ws, evs, n);
    var s := ws[n].space;
    SharedLowHalf(s.mem, s.tables, s.kernel, u, q);
    SharedLowHalf(s.mem, s.tables, s.kernel, v, q);
  }

  /** ... and whatever other spaces do above 2^39, to pages of their own, leaves a page of this
      one alone; so does anything they do at all to a page above 2^39, unless a new root is mapped
      at this page. */
  lemma RunSeparates(ws: seq<System>, evs: seq<Event>, n: nat, u: nat, q: Page)
    requires IsRun(ws, evs) && SystemInv(ws[0]) && n < |ws| && IsRoot(ws[0].space, u) && q != WINDOW
    requires forall i: nat :: i < n ==>
               && (evs[i].Mapped? || evs[i].Unmapped? ==> evs[i].root != u && (evs[i].page.i4 != 0 || q.i4 != 0))
               && (evs[i].Created? ==> PageNo(evs[i].frame) != q || (u != ws[0].space.kernel && q.i4 != 0))
    ensures Translate(ws[n].space.mem, u, q) == Translate(ws[0].space.mem, u, q)
  {
    forall i: nat | i < n ensures !Targets(ws[i], evs[i], u, q) {
      KernelFixed(ws, evs, i, u);
    }
    RunView(ws, evs, n, u, q);
  }

  /** Above 2^39 a space other than the kernel's changes by its own maps and unmaps only. */
  lemma UserPagesStay(ws: seq<System>, evs: seq<Event>, n: nat, u: nat, q: Page)
    requires IsRun(ws, evs) && SystemInv(ws[0]) && n < |ws| && IsRoot(ws[0].space, u)
    requires u != ws[0].space.kernel && q.i4 != 0
    requires forall i: nat :: i < n ==>
               (evs[i].Mapped? ==> evs[i].root != u) && (evs[i].Unmapped? ==> evs[i].root != u)
    ensures LeafEntry(ws[n].space.mem, u, 4, q) == LeafEntry(ws[0].space.mem, u, 4, q)
  {
    forall i: nat | i < n ensures !Targets(ws[i], evs[i], u, q) {
      KernelFixed(ws, evs, i, u);
    }
    RunView(ws, evs, n, u, q);
  }

  // ---------- what the steps of a run do ----------

  /** Where a run makes a new address space there was none before; afterwards it is one that agrees
      with the kernel's below 2^39 and is empty above, its frame in nobody's hands. */
  lemma RunCreates(ws: seq<System>, evs: seq<Event>, i: nat, f: nat, q: Page)
    requires IsRun(ws, evs) && SystemInv(ws[0]) && i < |evs| && evs[i] == Created(f)
    ensures var s, s' := ws[i].space, ws[i + 1].space;
      && f !in s.tables && !IsRoot(s, f) && IsRoot(s', f) && s'.kernel == s.kernel && f != s'.kernel
      && f !in s.pmm.reserved && f in s'.pmm.reserved && !Held(ws[i + 1].live, f)
      && LeafEntry(s'.mem, f, 4, q) == (if q.i4 == 0 then LeafEntry(s'.mem, s'.kernel, 4, q) else ZERO)
  {
    RunKeeps(ws, evs, i);
    RunKeeps(ws, evs, i + 1);
    CreateEffect(ws[i].space, f, ws[i + 1].space);
    RootAllocated(ws[i].space, Taken(ws[i].space, 1), f);
  }

  /** And it stays one. */
  lemma RunKeepsCreated(ws: seq<System>, evs: seq<Event>, i: nat, f: nat, n: nat)
    requires IsRun(ws, evs) && SystemInv(ws[0]) && i < n < |ws| && evs[i] == Created(f)
    ensures IsRoot(ws[n].space, f)
  {
    RunCreates(ws, evs, i, f, WINDOW);
    RootStays(ws, evs, i + 1, n, f);
  }

  lemma {:induction false} RootStays(ws: seq<System>, evs: seq<Event>, i: nat, n: nat, u: nat)
    requires IsRun(ws, evs) && SystemInv(ws[0]) && i <= n < |ws| && IsRoot(ws[i].space, u)
    ensures IsRoot(ws[n].space, u)
    decreases n
  {
    if i < n {
      RootStays(ws, evs, i, n - 1, u);
      RunKeeps(ws, evs, n - 1);
      NextView(ws[n - 1], evs[n - 1], ws[n], u, WINDOW);
    }
  }

  /** Where a run maps a page it has the entry afterwards, where it unmaps one it has none. */
  lemma RunMaps(ws: seq<System>, evs: seq<Event>, i: nat, u: nat)
    requires IsRun(ws, evs) && SystemInv(ws[0]) && i < |evs| && IsRoot(ws[i].space, u)
    ensures evs[i].Mapped? && (evs[i].root == u || evs[i].page.i4 == 0) ==>
              LeafEntry(ws[i + 1].space.mem, u, 4, evs[i].page) == evs[i].entry
    ensures evs[i].Unmapped? && (evs[i].root == u || evs[i].page.i4 == 0) ==>
              LeafEntry(ws[i + 1].space.mem, u, 4, evs[i].page) == ZERO
  {
    var s := ws[i].space;
    RunKeeps(ws, evs, i);
    assert Next(ws[i], evs[i], ws[i + 1]);
    match evs[i] {
      case Mapped(r, p, e) => MapView(s, r, p, e, u, p);
      case Unmapped(r, p) => UnmapView(s, r, p, u, p);
      case _ =>
    }
  }

  /** Where a client writes a word it is in memory afterwards, and every other word is as before. */
  lemma RunWrites(ws: seq<System>, evs: seq<Event>, i: nat, l: Loc)
    requires IsRun(ws, evs) && i < |evs| && evs[i].Wrote?
    ensures At(ws[i + 1].space.mem, l) == if l == evs[i].loc then evs[i].value else At(ws[i].space.mem, l)
  {
  }

  /** In every state of every run a frame is held by at most one client, and then it is reserved, no
      table, and above 8 MiB. */
  lemma HeldOnce(ws: seq<System>, evs: seq<Event>, n: nat, a: nat, b: nat, k: nat)
    requires IsRun(ws, evs) && SystemInv(ws[0]) && n < |ws| && a < |ws[n].live| && b < |ws[n].live|
    requires ws[n].live[a].start <= k < ws[n].live[a].start + ws[n].live[a].count
    requires ws[n].live[b].start <= k < ws[n].live[b].start + ws[n].live[b].count
    ensures a == b && k in ws[n].space.pmm.reserved && k !in ws[n].space.tables && 0x800 <= k
  {
    RunKeeps(ws, evs, n);
    var live := ws[n].live;
    assert Holds(live[a], k) && Holds(live[b], k) && Held(live, k);
    if a < b {
      LaterApart(live, a, b, k);
    } else if b < a {
      LaterApart(live, b, a, k);
    }
  }

  lemma LaterApart(live: seq<Block>, a: nat, b: nat, k: nat)
    requires Disjoint(live) && a < b < |live| && Holds(live[a], k)
    ensures !Holds(live[b], k)
  {
    assert Apart(live[a], live[b]);
  }

  // ---------- what the processor reaches ----------

  /** Every step keeps processor and software walk in step. */
  lemma NextAgrees(w: System, ev: Event, w': System)
    requires SystemInv(w) && Next(w, ev, w') && HwAgrees(w.space)
    ensures HwAgrees(w'.space)
  {
    match ev {
      case Mapped(r, p, e) => MapAgrees(w.space, r, p, e, w'.space);
      case Unmapped(r, p) => UnmapAgrees(w.space, r, p);
      case Created(f) => CreateAgrees(w.space, f, w'.space);
      case Took(n) => SameAgrees(w.space, w'.space);
      case Gave(i) => SameAgrees(w.space, w'.space);
      case Wrote(l, e) => SameAgrees(w.space, w'.space);
    }
  }

  /** In every state of every run the processor reaches through each page of each space exactly the
      frame the software walk finds. */
  lemma {:induction false} RunAgrees(ws: seq<System>, evs: seq<Event>, n: nat)
    requires IsRun(ws, evs) && SystemInv(ws[0]) && HwAgrees(ws[0].space) && n < |ws|
    ensures HwAgrees(ws[n].space)
    decreases n
  {
    if n > 0 {
      RunAgrees(ws, evs, n - 1);
      RunKeeps(ws, evs, n - 1);
      NextAgrees(ws[n - 1], evs[n - 1], ws[n]);
    }
  }

  /** Separation as the processor sees it. */
  lemma RunSeparatesHw(ws: seq<System>, evs: seq<Event>, n: nat, u: nat, q: Page)
    requires IsRun(ws, evs) && SystemInv(ws[0]) && HwAgrees(ws[0].space) && n < |ws|
    requires IsRoot(ws[0].space, u) && q != WINDOW
    requires forall i: nat :: i < n ==>
               && (evs[i].Mapped? || evs[i].Unmapped? ==> evs[i].root != u && (evs[i].page.i4 != 0 || q.i4 != 0))
               && (evs[i].Created? ==> PageNo(evs[i].frame) != q || (u != ws[0].space.kernel && q.i4 != 0))
    ensures HwFrame(ws[n].space.mem, u, q) == HwFrame(ws[0].space.mem, u, q)
  {
    RunSeparates(ws, evs, n, u, q);
    RunAgrees(ws, evs, n);
    KernelFixed(ws, evs, n, u);
    assert HwFrame(ws[0].space.mem, u, q) == Translate(ws[0].space.mem, u, q);
    assert HwFrame(ws[n].space.mem, u, q) == Translate(ws[n].space.mem, u, q);
  }

  // ---------- the allocator's clients as runs ----------

  /** Some run leads from `w` to `w'`. */
  ghost predicate Leads(w: System, w': System) {
    exists ws: seq<System>, evs: seq<Event> :: IsRun(ws, evs) && ws[0] == w && ws[|evs|] == w'
  }

  lemma LeadsKeeps(w: System, w': System)
    requires Leads(w, w') && SystemInv(w)
    ensures SystemInv(w')
  {
    var ws: seq<System>, evs: seq<Event> :| IsRun(ws, evs) && ws[0] == w && ws[|evs|] == w';
    RunKeeps(ws, evs, |evs|);
  }

  lemma StepLeads(w: System, ev: Event, w': System)
    requires Next(w, ev, w')
    ensures Leads(w, w')
  {
    assert IsRun([w, w'], [ev]);
  }

  lemma LeadsOn(a: System, b: System, c: System)
    requires Leads(a, b) && Leads(b, c)
    ensures Leads(a, c)
  {
    var ws: seq<System>, evs: seq<Event> :| IsRun(ws, evs) && ws[0] == a && ws[|evs|] == b;
    var ws': seq<System>, evs': seq<Event> :| IsRun(ws', evs') && ws'[0] == b && ws'[|evs'|] == c;
    var l, es := ws + ws'[1..], evs + evs';
    forall i: nat | i < |es| ensures Next(l[i], es[i], l[i + 1]) {
      if i < |evs| {
        assert Next(ws[i], evs[i], ws[i + 1]);
      } else {
        assert Next(ws'[i - |evs|], evs'[i - |evs|], ws'[i - |evs| + 1]);
      }
    }
    assert IsRun(l, es) && l[0] == a && l[|es|] == c;
  }

  /** Mapping a run of pages is a run of the system. */
  lemma MapAllLeads(s: Space, r: nat, js: seq<Job>, flags: Flags, live: seq<Block>, own: set<nat>)
    requires RunReady(s, r, js, flags)
    ensures Leads(System(s, live, own), System(MapAll(s, r, js, |js|, flags), live, own))
  {
    var ss := RunTrace(s, r, js, flags, |js|);
    TraceLeads(ss, r, js, flags, live, own);
  }

  lemma TraceLeads(ss: seq<Space>, r: nat, js: seq<Job>, flags: Flags, live: seq<Block>, own: set<nat>)
    requires Trace(ss, r, js, flags, |js|)
    ensures Leads(System(ss[0], live, own), System(ss[|js|], live, own))
  {
    var ws := seq(|ss|, i requires 0 <= i < |ss| => System(ss[i], live, own));
    var evs := seq(|js|, i requires 0 <= i < |js| => Mapped(r, js[i].page, Entry(js[i].frame, flags)));
    forall i: nat | i < |evs| ensures Next(ws[i], evs[i], ws[i + 1]) {
      assert MapsTo(ss[i], r, js[i], flags, ss[i + 1]);
    }
    assert IsRun(ws, evs);
  }

  /** pmm_alloc_custom is a run of the system: afterwards the client holds the new block. */
  lemma AllocateLeads(w: System, n: nat, flags: Flags)
    requires SystemInv(w) && CanAllocate(w.space, n, flags) && n / 8 != 1
    ensures var f := Alloc(w.space.pmm, n).0;
      var w' := System(Allocate(w.space, n, flags), w.live + [Block(f, n)], w.own);
      Leads(w, w') && SystemInv(w')
  {
    var f := Alloc(w.space.pmm, n).0;
    var w1 := System(Taken(w.space, n), w.live + [Block(f, n)], w.own);
    assert Next(w, Took(n), w1);
    StepLeads(w, Took(n), w1);
    AllocationMaps(w.space, n, flags, w1.space, f);
    MapAllLeads(w1.space, w.space.kernel, PageRun(f, f, n), flags, w1.live, w.own);
    var w' := System(Allocate(w.space, n, flags), w1.live, w.own);
    LeadsOn(w, w1, w');
    LeadsKeeps(w, w');
  }

  /** create_user_pml4 is a run of the system. */
  lemma CreateLeads(w: System)
    requires SystemInv(w) && CanCreate(w.space)
    ensures Leads(w, System(Create(w.space), w.live, w.own)) && SystemInv(System(Create(w.space), w.live, w.own))
  {
    var w' := System(Create(w.space), w.live, w.own);
    StepLeads(w, Created(Alloc(w.space.pmm, 1).0), w');
    LeadsKeeps(w, w');
  }

  /** So is a client's write to a frame it holds. */
  lemma WriteLeads(w: System, l: Loc, e: Entry)
    requires SystemInv(w) && Held(w.live, l.frame)
    ensures var w' := System(w.space.(mem := w.space.mem[l := e]), w.live, w.own); Leads(w, w') && SystemInv(w')
  {
    var w' := System(w.space.(mem := w.space.mem[l := e]), w.live, w.own);
    StepLeads(w, Wrote(l, e), w');
    LeadsKeeps(w, w');
  }

  /** mmap is a run of the system. */
  lemma MmapLeads(w: System, r: nat, addr: nat, len: nat, prot: Prot)
    requires SystemInv(w) && CanMmap(w.space, r, addr, len, prot) && MmapPages(len) > 0 && MmapPages(len) / 8 != 1
    ensures var n := MmapPages(len);
      var f := Alloc(w.space.pmm, n).0;
      var live := if f == 0 then w.live else w.live + [Block(f, n)];
      var w' := System(MmapState(w.space, r, addr, len, prot), live, w.own);
      Leads(w, w') && SystemInv(w')
  {
    var n := MmapPages(len);
    var f := Alloc(w.space.pmm, n).0;
    var live := if f == 0 then w.live else w.live + [Block(f, n)];
    var w1 := System(Taken(w.space, n), live, w.own);
    assert Next(w, Took(n), w1);
    StepLeads(w, Took(n), w1);
    MmapReady(w.space, r, addr, len, prot, w1.space, f);
    MapAllLeads(w1.space, r, MmapRun(addr / 0x1000, f, n), UserFlags(prot), live, w.own);
    var w' := System(MmapState(w.space, r, addr, len, prot), live, w.own);
    LeadsOn(w, w1, w');
    LeadsKeeps(w, w');
  }

  lemma {:induction false} UnmapAllLeads(s: Space, r: nat, page: nat, n: nat, live: seq<Block>, own: set<nat>)
    requires Inv(s) && IsRoot(s, r) && LOW <= page && page + n <= PAGES
    ensures Leads(System(s, live, own), System(UnmapAll(s, r, page, n), live, own))
    decreases n
  {
    if n == 0 {
      assert IsRun([System(s, live, own)], []);
    } else {
      var k: nat := n - 1;
      var a, b := UnmapAll(s, r, page, k), UnmapAll(s, r, page, n);
      UnmapAllLeads(s, r, page, k, live, own);
      UnmapLeads(s, r, page, k, n, a, b, live, own);
      LeadsOn(System(s, live, own), System(a, live, own), System(b, live, own));
    }
  }

  lemma UnmapLeads(s: Space, r: nat, page: nat, k: nat, n: nat, a: Space, b: Space, live: seq<Block>, own: set<nat>)
    requires Inv(s) && IsRoot(s, r) && LOW <= page && page + n <= PAGES && n > 0 && k == n - 1
    requires a == UnmapAll(s, r, page, k) && b == UnmapAll(s, r, page, n)
    ensures Leads(System(a, live, own), System(b, live, own))
  {
    var p := NthPage(page, k);
    UnmapAllSound(s, r, page, k, a);
    NthPageMappable(a, page, k);
    UnmapStepLeads(a, r, p, b, live, own);
  }

  lemma UnmapStepLeads(a: Space, r: nat, p: Page, b: Space, live: seq<Block>, own: set<nat>)
    requires IsRoot(a, r) && Mappable(a, p) && b == Unmap(a, r, p)
    ensures Leads(System(a, live, own), System(b, live, own))
  {
    StepLeads(System(a, live, own), Unmapped(r, p), System(b, live, own));
  }

  /** pmm_free of a block the client holds is a run of the system. */
  lemma FreeLeads(w: System, i: nat, page: nat)
    requires SystemInv(w) && i < |w.live| && LOW <= page && page + w.live[i].count <= PAGES
    ensures var b := w.live[i];
      var w' := System(Free(w.space, page, b.start, b.count), w.live[..i] + w.live[i + 1..], w.own);
      Leads(w, w') && SystemInv(w')
  {
    var b := w.live[i];
    var live := w.live[..i] + w.live[i + 1..];
    var w1 := System(w.space.(pmm := Release(w.space.pmm, b.start, b.count)), live, w.own);
    assert Next(w, Gave(i), w1);
    StepLeads(w, Gave(i), w1);
    NextKeeps(w, Gave(i), w1);
    UnmapAllLeads(w1.space, w.space.kernel, page, b.count, live, w.own);
    var w' := System(Free(w.space, page, b.start, b.count), live, w.own);
    LeadsOn(w, w1, w');
    LeadsKeeps(w, w');
  }
}
