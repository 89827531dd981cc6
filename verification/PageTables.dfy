/**
 Four-level page tables of src/memory/paging.c as values: physical memory, the direct
 software walk, the hardware walk (section 4.5 of the Intel SDM, volume 3A), the shape every
 reachable table tree has, and the reference definition of mapping and unmapping a page that
 the windowed code is proved against.
 */
module PageTables {
  import opened Wrappers
  import opened Frames

  type Index = i: nat | i < 512

  /** Page flags below 0x1000 by bit number; or-ing two flag words is set union. */
  type Flags = s: set<nat> | forall b :: b in s ==> b < 12

  const PRESENT: nat := 0
  const WRITEABLE: nat := 1
  const USER: nat := 2
  const HUGE: nat := 7

  /** A 64-bit word of physical memory and its place. */
  datatype Loc = Loc(frame: nat, index: nat)

  /** A word read as a table entry: bits 12 and up, and which of the flag bits 0..11 are set. */
  datatype Entry = Entry(frame: nat, flags: Flags)

  /** Physical memory; a word that was never written reads as zero. */
  type Mem = map<Loc, Entry>

  const ZERO: Entry := Entry(0, {})

  function At(m: Mem, l: Loc): Entry {
    if l in m then m[l] else ZERO
  }

  predicate Present(e: Entry) { PRESENT in e.flags }

  predicate Huge(e: Entry) { HUGE in e.flags }

  /** A virtual page by its four table indices. */
  datatype Page = Page(i4: Index, i3: Index, i2: Index, i1: Index)

  function Idx(p: Page, level: nat): Index {
    if level == 4 then p.i4 else if level == 3 then p.i3 else if level == 2 then p.i2 else p.i1
  }

  /** get_lv4_index .. get_lv1_index of a virtual address. */
  function PageOf(va: nat): Page {
    Page(va / 0x80_0000_0000 % 512, va / 0x4000_0000 % 512, va / 0x20_0000 % 512, va / 0x1000 % 512)
  }

  /** The word offset of a virtual address inside its page. */
  function WordOf(va: nat): Index {
    va % 0x1000 / 8
  }

  lemma ShiftByPage(va: nat, n: nat, k: nat)
    requires n == va / 0x1000 && (k == 512 || k == 0x4_0000 || k == 0x800_0000)
    ensures va / (0x1000 * k) == n / k
  {
    if k == 512 {} else if k == 0x4_0000 {} else {}
  }

  /** Addresses in one frame have the same page. */
  lemma SameDigits(a: nat, b: nat, n: nat)
    requires a / 0x1000 == n && b / 0x1000 == n
    ensures PageOf(a) == PageOf(b)
  {
    ShiftByPage(a, n, 512);
    ShiftByPage(a, n, 0x4_0000);
    ShiftByPage(a, n, 0x800_0000);
    ShiftByPage(b, n, 512);
    ShiftByPage(b, n, 0x4_0000);
    ShiftByPage(b, n, 0x800_0000);
  }

  const WINDOW_ADDR: nat := 0x200000    // TMP_ADDR
  const WINDOW: Page := Page(0, 0, 1, 0)
  const WINDOW_FRAME: nat := 0x200
  const LOW: nat := 0x800               // frames below 8 MiB, reachable without the window

  // ---------- walks ----------

  /** The slot of the leaf entry, following every non-null table entry.  (The second component of
      the termination measure keeps the verifier from unfolding all levels at once.) */
  function Leaf(m: Mem, t: nat, level: nat, p: Page): Option<Loc>
    decreases level, p
  {
    if level <= 1 then Some(Loc(t, Idx(p, 1)))
    else
      var e := At(m, Loc(t, Idx(p, level)));
      if e.frame == 0 then None else Leaf(m, e.frame, level - 1, p)
  }

  /** The leaf entry itself; a missing table reads as an empty entry. */
  function LeafEntry(m: Mem, t: nat, level: nat, p: Page): Entry
    decreases level, p
  {
    if level <= 1 then At(m, Loc(t, Idx(p, 1)))
    else
      var e := At(m, Loc(t, Idx(p, level)));
      if e.frame == 0 then ZERO else LeafEntry(m, e.frame, level - 1, p)
  }

  /** to_phys at page granularity. */
  function Translate(m: Mem, root: nat, p: Page): Option<nat> {
    var e := LeafEntry(m, root, 4, p);
    if Present(e) then Some(e.frame) else None
  }

  /** What the processor does: every level has to be present and not a large page. */
  function HwLeaf(m: Mem, t: nat, level: nat, p: Page): Option<Loc>
    decreases level, p
  {
    if level <= 1 then Some(Loc(t, Idx(p, 1)))
    else
      var e := At(m, Loc(t, Idx(p, level)));
      if Present(e) && !Huge(e) then HwLeaf(m, e.frame, level - 1, p) else None
  }

  /** The physical frame behind a page, or a page fault. */
  function HwFrame(m: Mem, root: nat, p: Page): Option<nat> {
    var l := HwLeaf(m, root, 4, p);
    if l.Some? && Present(At(m, l.value)) then Some(At(m, l.value).frame) else None
  }

  /** The physical word a pointer denotes in the address space of `root`. */
  function Resolve(m: Mem, root: nat, va: nat): Option<Loc> {
    match HwFrame(m, root, PageOf(va))
    case None => None
    case Some(f) => Some(Loc(f, WordOf(va)))
  }

  // ---------- the tree ----------

  /** What is known of a table frame: its level and the slot that points to it. */
  datatype Node = Node(level: nat, up: Loc)

  type Tables = map<nat, Node>

  /** Slot 0 of every root is the same link, so it is named after the kernel's root. */
  function Canon(k: nat, level: nat, t: nat, i: nat): Loc {
    if level == 4 && i == 0 then Loc(k, 0) else Loc(t, i)
  }

  ghost predicate SlotOk(m: Mem, T: Tables, k: nat, t: nat, i: Index)
    requires t in T && T[t].level >= 2
  {
    var e := At(m, Loc(t, i));
    && !Huge(e)
    && (e.frame == 0 ==> !Present(e))
    && (e.frame != 0 ==> e.frame in T && T[e.frame] == Node(T[t].level - 1, Canon(k, T[t].level, t, i)))
  }

  /** The slot recorded for a table is a slot of a table one level up, and does link to it. */
  ghost predicate Linked(m: Mem, T: Tables, t: nat)
    requires t in T
  {
    var up := T[t].up;
    up.frame in T && T[up.frame].level == T[t].level + 1 && up.index < 512 && At(m, up).frame == t
  }

  /** Every link of an inner table leads one level down to a table, every table but the roots has
      its link, and no other, except that all roots share slot 0. */
  ghost predicate Tree(m: Mem, T: Tables, k: nat) {
    && k in T && T[k].level == 4 && 0 !in T
    && (forall t :: t in T ==> 1 <= T[t].level <= 4)
    && (forall t {:trigger Linked(m, T, t)} :: t in T && T[t].level < 4 ==> Linked(m, T, t))
    && (forall t, i: Index :: t in T && T[t].level >= 2 ==> SlotOk(m, T, k, t, i))
    && (forall t :: t in T && T[t].level == 4 ==> At(m, Loc(t, 0)) == At(m, Loc(k, 0)))
    && Present(At(m, Loc(k, 0)))
  }

  /** Two leaf slots coincide only for the same page, in the same space or in the shared part. */
  lemma LeafInjective(m: Mem, T: Tables, k: nat, r: nat, p: Page, r': nat, p': Page)
    requires Tree(m, T, k) && r in T && r' in T && T[r].level == T[r'].level == 4
    requires Leaf(m, r, 4, p).Some? && Leaf(m, r, 4, p) == Leaf(m, r', 4, p')
    ensures p == p' && (r == r' || p.i4 == 0)
  {
    LeafPath(m, T, k, r, p);
    LeafPath(m, T, k, r', p');
  }

  /** The parents recorded for a leaf table spell the page that leads to it. */
  lemma LeafPath(m: Mem, T: Tables, k: nat, r: nat, p: Page)
    requires Tree(m, T, k) && r in T && T[r].level == 4 && Leaf(m, r, 4, p).Some?
    ensures var l := Leaf(m, r, 4, p).value;
      && l.index == p.i1 && l.frame in T && T[l.frame].level == 1 && T[l.frame].up.index == p.i2
      && T[l.frame].up.frame in T && T[T[l.frame].up.frame].up.index == p.i3
      && T[T[l.frame].up.frame].up.frame in T
      && T[T[T[l.frame].up.frame].up.frame].up == Canon(k, 4, r, p.i4)
  {
    var e3 := At(m, Loc(r, p.i4));
    assert SlotOk(m, T, k, r, p.i4);
    assert Leaf(m, r, 4, p) == Leaf(m, e3.frame, 3, p);
    var e2 := At(m, Loc(e3.frame, p.i3));
    assert SlotOk(m, T, k, e3.frame, p.i3);
    assert Leaf(m, e3.frame, 3, p) == Leaf(m, e2.frame, 2, p);
    var e1 := At(m, Loc(e2.frame, p.i2));
    assert SlotOk(m, T, k, e2.frame, p.i2);
    assert Leaf(m, e2.frame, 2, p) == Leaf(m, e1.frame, 1, p);
  }

  /** All address spaces agree below 2^39. */
  lemma SharedLowHalf(m: Mem, T: Tables, k: nat, r: nat, p: Page)
    requires Tree(m, T, k) && r in T && T[r].level == 4 && p.i4 == 0
    ensures LeafEntry(m, r, 4, p) == LeafEntry(m, k, 4, p)
    ensures Leaf(m, r, 4, p) == Leaf(m, k, 4, p)
    ensures HwLeaf(m, r, 4, p) == HwLeaf(m, k, 4, p)
  {
  }

  /** In a well-formed tree the processor finds nothing the software walk does not find. */
  lemma {:induction false} HwIsLeaf(m: Mem, T: Tables, k: nat, t: nat, p: Page)
    requires Tree(m, T, k) && t in T && HwLeaf(m, t, T[t].level, p).Some?
    ensures Leaf(m, t, T[t].level, p) == HwLeaf(m, t, T[t].level, p)
    ensures var l := Leaf(m, t, T[t].level, p).value; l.frame in T && T[l.frame].level == 1
    decreases T[t].level
  {
    if T[t].level >= 2 {
      assert SlotOk(m, T, k, t, Idx(p, T[t].level));
      HwIsLeaf(m, T, k, At(m, Loc(t, Idx(p, T[t].level))).frame, p);
    }
  }

  lemma {:induction false} LeafLevel(m: Mem, T: Tables, k: nat, t: nat, p: Page)
    requires Tree(m, T, k) && t in T && Leaf(m, t, T[t].level, p).Some?
    ensures var l := Leaf(m, t, T[t].level, p).value; l.frame in T && T[l.frame].level == 1 && l.index == p.i1
    ensures LeafEntry(m, t, T[t].level, p) == At(m, Leaf(m, t, T[t].level, p).value)
    decreases T[t].level
  {
    if T[t].level >= 2 {
      assert SlotOk(m, T, k, t, Idx(p, T[t].level));
      LeafLevel(m, T, k, At(m, Loc(t, Idx(p, T[t].level))).frame, p);
    }
  }

  // ---------- writes ----------

  /** Writing a word of a leaf table (or of no table) keeps the tree and every path in it. */
  lemma LeafWriteKeepsTree(m: Mem, T: Tables, k: nat, l: Loc, e: Entry)
    requires Tree(m, T, k) && (l.frame in T ==> T[l.frame].level == 1)
    ensures Tree(m[l := e], T, k)
  {
    var m' := m[l := e];
    forall t, i: Index | t in T && T[t].level >= 2 ensures SlotOk(m', T, k, t, i) {
      assert SlotOk(m, T, k, t, i);
    }
    forall t | t in T && T[t].level < 4 ensures Linked(m', T, t) {
      assert Linked(m, T, t);
    }
  }

  lemma {:induction false} LeafWrite(m: Mem, T: Tables, k: nat, l: Loc, e: Entry, t: nat, p: Page)
    requires Tree(m, T, k) && (l.frame in T ==> T[l.frame].level == 1) && t in T
    ensures Leaf(m[l := e], t, T[t].level, p) == Leaf(m, t, T[t].level, p)
    ensures HwLeaf(m[l := e], t, T[t].level, p) == HwLeaf(m, t, T[t].level, p)
    ensures LeafEntry(m[l := e], t, T[t].level, p)
            == if Leaf(m, t, T[t].level, p) == Some(l) then e else LeafEntry(m, t, T[t].level, p)
    decreases T[t].level
  {
    if T[t].level >= 2 {
      assert SlotOk(m, T, k, t, Idx(p, T[t].level));
      var c := At(m, Loc(t, Idx(p, T[t].level))).frame;
      if c != 0 {
        LeafWrite(m, T, k, l, e, c, p);
      }
    }
  }

  // ---------- the kernel's memory as a whole ----------

  /** Physical memory, the frame allocator, the table frames, and the kernel's root. */
  datatype Space = Space(mem: Mem, pmm: Pmm, tables: Tables, kernel: nat)

  ghost predicate IsRoot(s: Space, r: nat) {
    r in s.tables && s.tables[r].level == 4
  }

  ghost predicate IsFree(s: Space, f: nat) {
    f < s.pmm.frames && f !in s.pmm.reserved
  }

  /** Low frames the walk reaches by their own address: those that are tables or may become one. */
  ghost predicate Pinned(s: Space, f: nat) {
    f < LOW && f != WINDOW_FRAME && (f in s.tables || IsFree(s, f))
  }

  /** The page of a low frame under identity mapping. */
  function LowPage(f: nat): Page {
    PageOf(f * 0x1000)
  }

  /** The three tables above the window's entry are present and low. */
  ghost predicate WindowReady(m: Mem, k: nat) {
    && k < LOW && Present(At(m, Loc(k, 0)))
    && var t3 := At(m, Loc(k, 0)).frame;
    && t3 < LOW && Present(At(m, Loc(t3, 0)))
    && var t2 := At(m, Loc(t3, 0)).frame;
    && t2 < LOW && Present(At(m, Loc(t2, 1)))
    && At(m, Loc(t2, 1)).frame < LOW
  }

  /** get_temp_entry: the slot of the window's own entry. */
  function WindowSlot(m: Mem, k: nat): Loc {
    Loc(At(m, Loc(At(m, Loc(At(m, Loc(k, 0)).frame, 0)).frame, 1)).frame, 0)
  }

  /** The invariant of the memory subsystem. */
  ghost predicate Inv(s: Space) {
    && Ready(s.pmm)
    && Tree(s.mem, s.tables, s.kernel)
    && WindowReady(s.mem, s.kernel)
    && (forall t :: t in s.tables ==> t in s.pmm.reserved && t != WINDOW_FRAME)
    && WINDOW_FRAME in s.pmm.reserved
    && (forall f: nat :: Pinned(s, f) ==> HwFrame(s.mem, s.kernel, LowPage(f)) == Some(f))
  }

  /** A word that links to nothing. */
  predicate Quiet(e: Entry) {
    e.frame == 0 && !Present(e) && !Huge(e)
  }

  /** The contents of frame `f` are those of an empty table of the given level: no links, and in
      a leaf table no entries at all. */
  ghost predicate Blank(m: Mem, f: nat, level: nat) {
    forall i: Index :: if level >= 2 then Quiet(At(m, Loc(f, i))) else At(m, Loc(f, i)) == ZERO
  }

  ghost predicate Zeroed(m: Mem, f: nat) {
    forall i: Index :: At(m, Loc(f, i)) == ZERO
  }

  /** Every frame the allocator may hand out is zero-filled. */
  ghost predicate ZeroFree(s: Space) {
    forall f: nat :: IsFree(s, f) ==> Zeroed(s.mem, f)
  }

  ghost function FreeSet(p: Pmm): set<nat> {
    set f: nat | f < p.frames && f !in p.reserved
  }

  /** Tables that mapping `p` has to create below `t`. */
  function Missing(m: Mem, t: nat, level: nat, p: Page): nat
    decreases level, p
  {
    if level <= 1 then 0
    else
      var e := At(m, Loc(t, Idx(p, level)));
      if e.frame == 0 then level - 1 else Missing(m, e.frame, level - 1, p)
  }

  // ---------- reference definition of mapping ----------

  /** No table is behind the entry: it is null, or the allocator says its frame is free. */
  ghost predicate Absent(s: Space, e: Entry) {
    e.frame == 0 || IsFree(s, e.frame)
  }

  /** Every table is reserved, so in a well-formed state only null entries have no table. */
  lemma AbsentIsNull(s: Space, t: nat, i: Index)
    requires Inv(s) && t in s.tables && s.tables[t].level >= 2
    ensures Absent(s, At(s.mem, Loc(t, i))) <==> At(s.mem, Loc(t, i)).frame == 0
  {
    assert SlotOk(s.mem, s.tables, s.kernel, t, i);
  }

  /** One step of the direct walk: the child table behind slot `i` of `t`, created if absent,
      its link given the new flags if it is not present. */
  ghost function EnsureTable(s: Space, t: nat, level: nat, i: Index, flags: Flags): (Space, nat)
    requires level >= 2
  {
    var l := Loc(t, i);
    var e := At(s.mem, l);
    if Absent(s, e) then
      var (c, pmm') := Alloc(s.pmm, 1);
      (s.(mem := s.mem[l := Entry(c, flags)], pmm := pmm',
          tables := s.tables[c := Node(level - 1, Canon(s.kernel, level, t, i))]), c)
    else if !Present(e) then (s.(mem := s.mem[l := Entry(e.frame, e.flags + flags)]), e.frame)
    else (s, e.frame)
  }

  /** A write to an entry that is not present is invisible to the processor's walks. */
  lemma {:induction false} HwStable(m: Mem, l: Loc, e: Entry, t: nat, level: nat, p: Page)
    requires !Present(At(m, l)) && HwLeaf(m, t, level, p).Some?
    ensures HwLeaf(m[l := e], t, level, p) == HwLeaf(m, t, level, p)
    decreases level
  {
    if level >= 2 {
      HwStable(m, l, e, At(m, Loc(t, Idx(p, level))).frame, level - 1, p);
    }
  }

  lemma HwFrameStable(m: Mem, l: Loc, e: Entry, r: nat, p: Page)
    requires !Present(At(m, l)) && HwFrame(m, r, p).Some?
    ensures HwFrame(m[l := e], r, p) == HwFrame(m, r, p)
  {
    HwStable(m, l, e, r, 4, p);
  }

  /** Linking a fresh table without links keeps the tree. */
  lemma LinkKeepsTree(m: Mem, T: Tables, k: nat, t: nat, i: Index, c: nat, flags: Flags)
    requires Tree(m, T, k) && t in T && T[t].level >= 2 && At(m, Loc(t, i)).frame == 0
    requires c !in T && c != 0 && (T[t].level > 2 ==> Blank(m, c, T[t].level - 1)) && HUGE !in flags
    ensures Tree(m[Loc(t, i) := Entry(c, flags)], T[c := Node(T[t].level - 1, Canon(k, T[t].level, t, i))], k)
  {
    var m', T' := m[Loc(t, i) := Entry(c, flags)], T[c := Node(T[t].level - 1, Canon(k, T[t].level, t, i))];
    assert SlotOk(m, T, k, t, i);
    forall u, j: Index | u in T' && T'[u].level >= 2 ensures SlotOk(m', T', k, u, j) {
      if u == c {
        assert Quiet(At(m, Loc(c, j)));
      } else {
        assert SlotOk(m, T, k, u, j);
      }
    }
    LinkKeepsLinks(m, T, k, t, i, c, flags);
  }

  lemma LinkKeepsLinks(m: Mem, T: Tables, k: nat, t: nat, i: Index, c: nat, flags: Flags)
    requires Tree(m, T, k) && t in T && T[t].level >= 2 && At(m, Loc(t, i)).frame == 0 && c !in T && c != 0
    ensures var m', T' := m[Loc(t, i) := Entry(c, flags)], T[c := Node(T[t].level - 1, Canon(k, T[t].level, t, i))];
      forall u {:trigger Linked(m', T', u)} :: u in T' && T'[u].level < 4 ==> Linked(m', T', u)
  {
    var m', T' := m[Loc(t, i) := Entry(c, flags)], T[c := Node(T[t].level - 1, Canon(k, T[t].level, t, i))];
    assert SlotOk(m, T, k, t, i);
    forall u | u in T' && T'[u].level < 4 ensures Linked(m', T', u) {
      if u != c {
        assert Linked(m, T, u);
      }
    }
  }

  /** Changing the flags of a link that is not present keeps the tree. */
  lemma RelinkKeepsTree(m: Mem, T: Tables, k: nat, t: nat, i: Index, e: Entry)
    requires Tree(m, T, k) && t in T && T[t].level >= 2
    requires e.frame != 0 && e.frame == At(m, Loc(t, i)).frame && !Huge(e) && !Present(At(m, Loc(t, i)))
    ensures Tree(m[Loc(t, i) := e], T, k)
  {
    var m' := m[Loc(t, i) := e];
    assert SlotOk(m, T, k, t, i);
    assert i == 0 ==> T[t].level < 4;
    forall u, j: Index | u in T && T[u].level >= 2 ensures SlotOk(m', T, k, u, j) {
      assert SlotOk(m, T, k, u, j);
    }
    forall u | u in T && T[u].level < 4 ensures Linked(m', T, u) {
      assert Linked(m, T, u);
    }
  }

  /** Frames that are no tables keep their contents. */
  ghost predicate OnlyTables(s: Space, s': Space) {
    forall f: nat, i: Index | f !in s'.tables :: At(s'.mem, Loc(f, i)) == At(s.mem, Loc(f, i))
  }

  /** `s'` has more tables than `s`, taken from its free frames, nothing else is reserved, and
      nothing but tables is written. */
  ghost predicate Grows(s: Space, s': Space) {
    && s'.kernel == s.kernel
    && s'.pmm.frames == s.pmm.frames
    && (forall t :: t in s.tables ==> t in s'.tables && s'.tables[t] == s.tables[t])
    && NewTables(s, s') <= FreeSet(s.pmm)
    && s'.pmm.reserved == s.pmm.reserved + NewTables(s, s')
    && OnlyTables(s, s')
  }

  ghost function NewTables(s: Space, s': Space): set<nat> {
    s'.tables.Keys - s.tables.Keys
  }

  lemma GrowsTransitive(a: Space, b: Space, c: Space)
    requires Grows(a, b) && Grows(b, c)
    ensures Grows(a, c)
  {
    assert NewTables(a, c) == NewTables(a, b) + NewTables(b, c);
  }

  lemma GrowsKeepsZeroFree(s: Space, s': Space)
    requires Grows(s, s') && Inv(s') && ZeroFree(s)
    ensures ZeroFree(s')
  {
    forall f: nat | IsFree(s', f) ensures Zeroed(s'.mem, f) {
      assert IsFree(s, f) && Zeroed(s.mem, f);
    }
  }

  /** The links above the window's entry are present, so no such write touches them. */
  lemma WindowStable(m: Mem, l: Loc, e: Entry, k: nat)
    requires WindowReady(m, k) && !Present(At(m, l))
    ensures WindowReady(m[l := e], k) && WindowSlot(m[l := e], k) == WindowSlot(m, k)
  {
  }

  /** A write to an entry that is not present keeps every pinned frame identity mapped. */
  lemma PinnedStable(s: Space, l: Loc, e: Entry)
    requires Inv(s) && !Present(At(s.mem, l))
    ensures forall f: nat :: Pinned(s, f) ==> HwFrame(s.mem[l := e], s.kernel, LowPage(f)) == Some(f)
  {
    forall f: nat | Pinned(s, f) ensures HwFrame(s.mem[l := e], s.kernel, LowPage(f)) == Some(f) {
      HwFrameStable(s.mem, l, e, s.kernel, LowPage(f));
    }
  }

  /** Linking a table in a frame just taken from the allocator. */
  lemma LinkNew(s: Space, t: nat, i: Index, flags: Flags, c: nat, pmm': Pmm, s': Space)
    requires Inv(s) && t in s.tables && s.tables[t].level >= 2 && HUGE !in flags
    requires At(s.mem, Loc(t, i)).frame == 0 && (s.tables[t].level > 2 ==> Blank(s.mem, c, s.tables[t].level - 1))
    requires Ready(pmm') && pmm'.frames == s.pmm.frames && IsFree(s, c) && pmm'.reserved == s.pmm.reserved + {c}
    requires s' == Space(s.mem[Loc(t, i) := Entry(c, flags)], pmm',
                         s.tables[c := Node(s.tables[t].level - 1, Canon(s.kernel, s.tables[t].level, t, i))], s.kernel)
    ensures Inv(s') && Grows(s, s')
    ensures c != 0 && c !in s.tables && forall j: Index :: At(s'.mem, Loc(c, j)) == At(s.mem, Loc(c, j))
    ensures FreeSet(s'.pmm) == FreeSet(s.pmm) - {c}
  {
    assert SlotOk(s.mem, s.tables, s.kernel, t, i);
    LinkKeepsTree(s.mem, s.tables, s.kernel, t, i, c, flags);
    WindowStable(s.mem, Loc(t, i), Entry(c, flags), s.kernel);
    PinnedStable(s, Loc(t, i), Entry(c, flags));
    assert NewTables(s, s') == {c};
    forall f: nat | Pinned(s', f) ensures Pinned(s, f) {
    }
  }

  /** The frame create_table would take next is an empty table of the given level. */
  ghost predicate NextBlank(s: Space, level: nat) {
    Blank(s.mem, Alloc(s.pmm, 1).0, level)
  }

  /** A table missing behind slot `i` can be created. */
  ghost predicate CanEnsure(s: Space, t: nat, level: nat, i: Index)
    requires level >= 2
  {
    At(s.mem, Loc(t, i)).frame == 0 ==> FreeSet(s.pmm) != {} && NextBlank(s, level - 1)
  }

  lemma TakesFree(s: Space)
    requires Ready(s.pmm) && FreeSet(s.pmm) != {}
    ensures var (c, p) := Alloc(s.pmm, 1);
      Ready(p) && p.frames == s.pmm.frames && IsFree(s, c) && c != 0 && p.reserved == s.pmm.reserved + {c}
  {
    AllocOne(s.pmm);
    var f :| f in FreeSet(s.pmm);
  }

  lemma EnsureNew(s: Space, t: nat, i: Index, flags: Flags)
    requires Inv(s) && t in s.tables && s.tables[t].level >= 2 && HUGE !in flags
    requires At(s.mem, Loc(t, i)).frame == 0 && CanEnsure(s, t, s.tables[t].level, i)
    ensures var (s', c) := EnsureTable(s, t, s.tables[t].level, i, flags);
      && Inv(s') && Grows(s, s')
      && c in s'.tables && c !in s.tables && c != 0 && s'.tables[c].level == s.tables[t].level - 1
      && Blank(s'.mem, c, s.tables[t].level - 1)
      && FreeSet(s'.pmm) == FreeSet(s.pmm) - {c} && c in FreeSet(s.pmm)
  {
    var (s', c) := EnsureTable(s, t, s.tables[t].level, i, flags);
    TakesFree(s);
    LinkNew(s, t, i, flags, c, s'.pmm, s');
  }

  lemma EnsureOld(s: Space, t: nat, i: Index, flags: Flags)
    requires Inv(s) && t in s.tables && s.tables[t].level >= 2 && HUGE !in flags
    requires At(s.mem, Loc(t, i)).frame != 0
    ensures var (s', c) := EnsureTable(s, t, s.tables[t].level, i, flags);
      && Inv(s') && Grows(s, s') && s'.pmm == s.pmm && s'.tables == s.tables
      && c == At(s.mem, Loc(t, i)).frame == At(s'.mem, Loc(t, i)).frame
      && c in s.tables && s.tables[c].level == s.tables[t].level - 1
      && (PRESENT in flags ==> Present(At(s'.mem, Loc(t, i))))
  {
    var e := At(s.mem, Loc(t, i));
    assert SlotOk(s.mem, s.tables, s.kernel, t, i);
    if !Present(e) {
      var e' := Entry(e.frame, e.flags + flags);
      Relink(s, t, i, e');
    }
  }

  lemma Relink(s: Space, t: nat, i: Index, e: Entry)
    requires Inv(s) && t in s.tables && s.tables[t].level >= 2
    requires e.frame != 0 && e.frame == At(s.mem, Loc(t, i)).frame && !Huge(e) && !Present(At(s.mem, Loc(t, i)))
    ensures Inv(s.(mem := s.mem[Loc(t, i) := e])) && OnlyTables(s, s.(mem := s.mem[Loc(t, i) := e]))
  {
    var s' := s.(mem := s.mem[Loc(t, i) := e]);
    RelinkKeepsTree(s.mem, s.tables, s.kernel, t, i, e);
    WindowStable(s.mem, Loc(t, i), e, s.kernel);
    PinnedStable(s, Loc(t, i), e);
    forall f: nat | Pinned(s', f) ensures Pinned(s, f) {
    }
  }

  // ---------- memories that agree on the tables ----------

  /** Memories that agree on the tables show the same walks. */
  lemma {:induction false} SameOnTables(m: Mem, m': Mem, T: Tables, k: nat, t: nat, q: Page)
    requires Tree(m, T, k) && t in T && forall l: Loc :: l.frame in T ==> At(m', l) == At(m, l)
    ensures LeafEntry(m', t, T[t].level, q) == LeafEntry(m, t, T[t].level, q)
    ensures HwLeaf(m', t, T[t].level, q) == HwLeaf(m, t, T[t].level, q)
    ensures HwLeaf(m, t, T[t].level, q).Some? ==> HwLeaf(m, t, T[t].level, q).value.frame in T
    decreases T[t].level
  {
    if T[t].level >= 2 {
      assert SlotOk(m, T, k, t, Idx(q, T[t].level));
      var c := At(m, Loc(t, Idx(q, T[t].level))).frame;
      if c != 0 {
        SameOnTables(m, m', T, k, c, q);
      }
    }
  }

  lemma SameTree(m: Mem, m': Mem, T: Tables, k: nat)
    requires Tree(m, T, k) && forall l: Loc :: l.frame in T ==> At(m', l) == At(m, l)
    ensures Tree(m', T, k)
  {
    forall t, i: Index | t in T && T[t].level >= 2 ensures SlotOk(m', T, k, t, i) {
      assert SlotOk(m, T, k, t, i);
    }
    forall t | t in T && T[t].level < 4 ensures Linked(m', T, t) {
      assert Linked(m, T, t);
    }
  }

  lemma SameWindow(m: Mem, m': Mem, T: Tables, k: nat)
    requires Tree(m, T, k) && WindowReady(m, k) && forall l: Loc :: l.frame in T ==> At(m', l) == At(m, l)
    ensures WindowReady(m', k)
  {
    assert SlotOk(m, T, k, k, 0);
    var t3 := At(m, Loc(k, 0)).frame;
    assert SlotOk(m, T, k, t3, 0);
    assert SlotOk(m, T, k, At(m, Loc(t3, 0)).frame, 1);
  }

  /** So does the invariant. */
  lemma SameInv(s: Space, z: Space)
    requires Inv(s) && z == s.(mem := z.mem) && forall l: Loc :: l.frame in s.tables ==> At(z.mem, l) == At(s.mem, l)
    ensures Inv(z)
  {
    SameTree(s.mem, z.mem, s.tables, s.kernel);
    SameWindow(s.mem, z.mem, s.tables, s.kernel);
    forall f: nat | Pinned(z, f) ensures HwFrame(z.mem, z.kernel, LowPage(f)) == Some(f) {
      assert Pinned(s, f);
      SameOnTables(s.mem, z.mem, s.tables, s.kernel, s.kernel, LowPage(f));
    }
  }

  // ---------- what one step leaves unchanged ----------

  /** Same links, whatever the flags. */
  ghost predicate SameFrames(m: Mem, m': Mem) {
    forall l: Loc :: At(m', l).frame == At(m, l).frame
  }

  lemma BlankBelow(m: Mem, t: nat, level: nat, p: Page)
    requires Blank(m, t, level)
    ensures LeafEntry(m, t, level, p) == ZERO
    ensures level >= 1 ==> Missing(m, t, level, p) == level - 1
  {
  }

  /** Creating or re-flagging a link changes no leaf entry of any space. */
  lemma {:induction false} EnsureView(s: Space, t: nat, i: Index, flags: Flags, u: nat, p: Page)
    requires Inv(s) && t in s.tables && s.tables[t].level >= 2 && HUGE !in flags
    requires CanEnsure(s, t, s.tables[t].level, i) && u in s.tables
    ensures var m' := EnsureTable(s, t, s.tables[t].level, i, flags).0.mem;
      LeafEntry(m', u, s.tables[u].level, p) == LeafEntry(s.mem, u, s.tables[u].level, p)
    decreases s.tables[u].level
  {
    var (s', c) := EnsureTable(s, t, s.tables[t].level, i, flags);
    if s.tables[u].level >= 2 {
      var l := Loc(u, Idx(p, s.tables[u].level));
      assert SlotOk(s.mem, s.tables, s.kernel, u, l.index);
      if At(s.mem, l).frame != 0 {
        EnsureView(s, t, i, flags, At(s.mem, l).frame, p);
      } else if l == Loc(t, i) {
        EnsureNew(s, t, i, flags);
        BlankBelow(s'.mem, c, s.tables[u].level - 1, p);
      }
    }
  }

  /** Links only ever get added, so a path the processor can walk stays as it is. */
  lemma EnsureHw(s: Space, t: nat, i: Index, flags: Flags, u: nat, level: nat, p: Page)
    requires Inv(s) && t in s.tables && s.tables[t].level >= 2
    requires HwLeaf(s.mem, u, level, p).Some?
    ensures HwLeaf(EnsureTable(s, t, s.tables[t].level, i, flags).0.mem, u, level, p) == HwLeaf(s.mem, u, level, p)
  {
    var s' := EnsureTable(s, t, s.tables[t].level, i, flags).0;
    assert SlotOk(s.mem, s.tables, s.kernel, t, i);
    if s'.mem != s.mem {
      HwStable(s.mem, Loc(t, i), s'.mem[Loc(t, i)], u, level, p);
    }
  }

  lemma {:induction false} MissingSame(m: Mem, m': Mem, t: nat, level: nat, p: Page)
    requires SameFrames(m, m')
    ensures Missing(m', t, level, p) == Missing(m, t, level, p)
    decreases level
  {
    if level >= 2 {
      assert At(m', Loc(t, Idx(p, level))).frame == At(m, Loc(t, Idx(p, level))).frame;
      MissingSame(m, m', At(m, Loc(t, Idx(p, level))).frame, level - 1, p);
    }
  }

  /** The direct walk of `map`: every table on the way to the leaf exists afterwards. */
  ghost function MapPath(s: Space, t: nat, level: nat, p: Page, flags: Flags): Space
    decreases level, p
  {
    if level <= 1 then s
    else
      var (s', c) := EnsureTable(s, t, level, Idx(p, level), flags);
      MapPath(s', c, level - 1, p, flags)
  }

  /** Every frame the walk takes for a table is an empty table when it is taken. */
  ghost predicate CleanPath(s: Space, t: nat, level: nat, p: Page, flags: Flags)
    decreases level, p
  {
    level <= 1 ||
    var (s', c) := EnsureTable(s, t, level, Idx(p, level), flags);
    c == 0 ||
    ((At(s.mem, Loc(t, Idx(p, level))).frame == 0 ==> NextBlank(s, level - 1)) && CleanPath(s', c, level - 1, p, flags))
  }

  /** A walk that creates nothing is clean ... */
  lemma CleanWhenComplete(s: Space, t: nat, p: Page, flags: Flags)
    requires Inv(s) && t in s.tables && HUGE !in flags && Missing(s.mem, t, s.tables[t].level, p) == 0
    ensures CleanPath(s, t, s.tables[t].level, p, flags)
  {
    CompleteIsClean(s, t, s.tables[t].level, p, flags);
  }

  ghost predicate CompleteAt(s: Space, t: nat, level: nat, p: Page, flags: Flags) {
    Inv(s) && t in s.tables && s.tables[t].level == level && HUGE !in flags && Missing(s.mem, t, level, p) == 0
  }

  lemma {:induction false} CompleteIsClean(s: Space, t: nat, level: nat, p: Page, flags: Flags)
    ensures CompleteAt(s, t, level, p, flags) ==> CleanPath(s, t, level, p, flags)
    decreases level
  {
    if level >= 2 {
      var below: nat := level - 1;
      var (s', c) := EnsureTable(s, t, level, Idx(p, level), flags);
      CompleteIsClean(s', c, below, p, flags);
      CompleteStep(s, t, level, below, p, flags, s', c);
    }
  }

  lemma CompleteStep(s: Space, t: nat, level: nat, below: nat, p: Page, flags: Flags, s': Space, c: nat)
    requires level >= 2 && below == level - 1 && (s', c) == EnsureTable(s, t, level, Idx(p, level), flags)
    ensures CompleteAt(s, t, level, p, flags)
            && (CompleteAt(s', c, below, p, flags) ==> CleanPath(s', c, below, p, flags)) ==>
              CleanPath(s, t, level, p, flags)
  {
    if CompleteAt(s, t, level, p, flags) {
      EnsureOld(s, t, Idx(p, level), flags);
      MissingSame(s.mem, s'.mem, c, below, p);
    }
  }

  /** ... and so is every walk while all free frames are zero-filled. */
  lemma {:induction false} CleanWhenZeroFree(s: Space, t: nat, p: Page, flags: Flags)
    requires Inv(s) && ZeroFree(s) && t in s.tables && HUGE !in flags
    ensures CleanPath(s, t, s.tables[t].level, p, flags)
    decreases s.tables[t].level
  {
    var level := s.tables[t].level;
    if level >= 2 {
      var i := Idx(p, level);
      var (s', c) := EnsureTable(s, t, level, i, flags);
      if c != 0 {
        ZeroFreeStep(s, t, i, flags);
        CleanWhenZeroFree(s', c, p, flags);
      }
    }
  }

  lemma ZeroFreeStep(s: Space, t: nat, i: Index, flags: Flags)
    requires Inv(s) && ZeroFree(s) && t in s.tables && s.tables[t].level >= 2 && HUGE !in flags
    requires EnsureTable(s, t, s.tables[t].level, i, flags).1 != 0
    ensures CanEnsure(s, t, s.tables[t].level, i)
    ensures var (s', c) := EnsureTable(s, t, s.tables[t].level, i, flags);
      Inv(s') && ZeroFree(s') && c in s'.tables && s'.tables[c].level == s.tables[t].level - 1
  {
    var s' := EnsureTable(s, t, s.tables[t].level, i, flags).0;
    if At(s.mem, Loc(t, i)).frame == 0 {
      AllocOne(s.pmm);
      assert Alloc(s.pmm, 1).0 in FreeSet(s.pmm);
      assert IsFree(s, Alloc(s.pmm, 1).0);
      EnsureNew(s, t, i, flags);
    } else {
      EnsureOld(s, t, i, flags);
    }
    GrowsKeepsZeroFree(s, s');
  }

  /** There are frames for the tables missing on the way, and they are clean. */
  ghost predicate CanMap(s: Space, t: nat, level: nat, p: Page, flags: Flags) {
    HUGE !in flags && Missing(s.mem, t, level, p) <= |FreeSet(s.pmm)| && CleanPath(s, t, level, p, flags)
  }

  /** One step down keeps the invariant and leaves enough frames for the levels below. */
  lemma EnsureStep(s: Space, t: nat, p: Page, flags: Flags)
    requires Inv(s) && t in s.tables && s.tables[t].level >= 2
    requires CanMap(s, t, s.tables[t].level, p, flags)
    ensures var level := s.tables[t].level;
      var (s', c) := EnsureTable(s, t, level, Idx(p, level), flags);
      && Inv(s') && Grows(s, s') && CanEnsure(s, t, level, Idx(p, level))
      && c in s'.tables && s'.tables[c].level == level - 1 && c != 0
      && At(s'.mem, Loc(t, Idx(p, level))).frame == c
      && (PRESENT in flags ==> Present(At(s'.mem, Loc(t, Idx(p, level)))))
      && !Huge(At(s'.mem, Loc(t, Idx(p, level))))
      && CanMap(s', c, level - 1, p, flags)
  {
    var level := s.tables[t].level;
    var i := Idx(p, level);
    var (s', c) := EnsureTable(s, t, level, i, flags);
    if At(s.mem, Loc(t, i)).frame == 0 {
      assert FreeSet(s.pmm) != {};
      TakesFree(s);
      EnsureNew(s, t, i, flags);
      BlankBelow(s'.mem, c, level - 1, p);
    } else {
      EnsureOld(s, t, i, flags);
      assert SameFrames(s.mem, s'.mem);
      MissingSame(s.mem, s'.mem, c, level - 1, p);
    }
    assert SlotOk(s'.mem, s'.tables, s'.kernel, t, i);
  }

  /** The walk of `map` may start at table `t`. */
  ghost predicate Walkable(s: Space, t: nat, level: nat, p: Page, flags: Flags) {
    Inv(s) && t in s.tables && s.tables[t].level == level && CanMap(s, t, level, p, flags)
  }

  lemma WalkStep(s: Space, t: nat, level: nat, p: Page, flags: Flags, s1: Space, c: nat)
    requires Walkable(s, t, level, p, flags) && level >= 2 && (s1, c) == EnsureTable(s, t, level, Idx(p, level), flags)
    ensures Walkable(s1, c, level - 1, p, flags) && Grows(s, s1) && c != 0
    ensures MapPath(s, t, level, p, flags) == MapPath(s1, c, level - 1, p, flags)
  {
    EnsureStep(s, t, p, flags);
  }

  /** The walk of `map` keeps the invariant. */
  lemma {:induction false} MapPathKeeps(s: Space, t: nat, level: nat, p: Page, flags: Flags)
    ensures Walkable(s, t, level, p, flags) ==> Inv(MapPath(s, t, level, p, flags))
    decreases level
  {
    if level >= 2 && Walkable(s, t, level, p, flags) {
      var (s1, c) := EnsureTable(s, t, level, Idx(p, level), flags);
      WalkStep(s, t, level, p, flags, s1, c);
      MapPathKeeps(s1, c, level - 1, p, flags);
    }
  }

  /** The walk of `map` reserves exactly the tables it creates. */
  lemma {:induction false} MapPathGrows(s: Space, t: nat, level: nat, p: Page, flags: Flags)
    ensures Walkable(s, t, level, p, flags) ==> Grows(s, MapPath(s, t, level, p, flags))
    decreases level
  {
    if level >= 2 && Walkable(s, t, level, p, flags) {
      var (s1, c) := EnsureTable(s, t, level, Idx(p, level), flags);
      WalkStep(s, t, level, p, flags, s1, c);
      MapPathGrows(s1, c, level - 1, p, flags);
      GrowsTransitive(s, s1, MapPath(s1, c, level - 1, p, flags));
    } else {
      assert NewTables(s, s) == {};
    }
  }

  /** Links above the walk stay as they are. */
  lemma {:induction false} MapPathLink(s: Space, t: nat, level: nat, p: Page, flags: Flags, l: Loc)
    ensures Walkable(s, t, level, p, flags) && l.frame in s.tables && s.tables[l.frame].level > level ==>
              At(MapPath(s, t, level, p, flags).mem, l) == At(s.mem, l)
    decreases level
  {
    if level >= 2 && Walkable(s, t, level, p, flags) && l.frame in s.tables && s.tables[l.frame].level > level {
      var (s1, c) := EnsureTable(s, t, level, Idx(p, level), flags);
      WalkStep(s, t, level, p, flags, s1, c);
      MapPathLink(s1, c, level - 1, p, flags, l);
    }
  }

  /** Table `t` leads to a leaf slot; with present flags the processor can follow the whole path. */
  ghost predicate Reached(m: Mem, t: nat, level: nat, p: Page, flags: Flags) {
    Leaf(m, t, level, p).Some? && (PRESENT in flags ==> HwLeaf(m, t, level, p) == Leaf(m, t, level, p))
  }

  /** The walk of `map` ends at a leaf slot; if the flags are present ones the processor can
      follow the whole path. */
  lemma {:induction false} MapPathReaches(s: Space, t: nat, level: nat, p: Page, flags: Flags)
    ensures Walkable(s, t, level, p, flags) ==> Reached(MapPath(s, t, level, p, flags).mem, t, level, p, flags)
    decreases level
  {
    if level >= 2 && Walkable(s, t, level, p, flags) {
      var (s1, c) := EnsureTable(s, t, level, Idx(p, level), flags);
      WalkStep(s, t, level, p, flags, s1, c);
      MapPathReaches(s1, c, level - 1, p, flags);
      ReachesStep(s, t, level, p, flags, s1, c, MapPath(s1, c, level - 1, p, flags).mem);
    }
  }

  lemma ReachesStep(s: Space, t: nat, level: nat, p: Page, flags: Flags, s1: Space, c: nat, m: Mem)
    requires Walkable(s, t, level, p, flags) && level >= 2 && (s1, c) == EnsureTable(s, t, level, Idx(p, level), flags)
    requires m == MapPath(s1, c, level - 1, p, flags).mem && Reached(m, c, level - 1, p, flags)
    ensures Reached(m, t, level, p, flags)
  {
    EnsureStep(s, t, p, flags);
    MapPathLink(s1, c, level - 1, p, flags, Loc(t, Idx(p, level)));
    ThroughLink(m, t, level, p, c);
  }

  lemma ThroughLink(m: Mem, t: nat, level: nat, p: Page, c: nat)
    requires level >= 2 && At(m, Loc(t, Idx(p, level))).frame == c != 0
    ensures Leaf(m, t, level, p) == Leaf(m, c, level - 1, p)
    ensures var e := At(m, Loc(t, Idx(p, level)));
      Present(e) && !Huge(e) ==> HwLeaf(m, t, level, p) == HwLeaf(m, c, level - 1, p)
  {
  }

  /** The walk of `map` changes no leaf entry of any address space ... */
  lemma {:induction false} MapPathView(s: Space, t: nat, level: nat, p: Page, flags: Flags, u: nat, q: Page)
    ensures Walkable(s, t, level, p, flags) && u in s.tables ==>
              LeafEntry(MapPath(s, t, level, p, flags).mem, u, s.tables[u].level, q)
              == LeafEntry(s.mem, u, s.tables[u].level, q)
    decreases level
  {
    if level >= 2 && Walkable(s, t, level, p, flags) && u in s.tables {
      var (s1, c) := EnsureTable(s, t, level, Idx(p, level), flags);
      WalkStep(s, t, level, p, flags, s1, c);
      WalkStepView(s, t, level, p, flags, s1, c, u, q);
      MapPathView(s1, c, level - 1, p, flags, u, q);
    }
  }

  lemma WalkStepView(s: Space, t: nat, level: nat, p: Page, flags: Flags, s1: Space, c: nat, u: nat, q: Page)
    requires Walkable(s, t, level, p, flags) && level >= 2 && (s1, c) == EnsureTable(s, t, level, Idx(p, level), flags)
    requires u in s.tables
    ensures LeafEntry(s1.mem, u, s.tables[u].level, q) == LeafEntry(s.mem, u, s.tables[u].level, q)
    ensures HwLeaf(s.mem, u, s.tables[u].level, q).Some? ==>
              HwLeaf(s1.mem, u, s.tables[u].level, q) == HwLeaf(s.mem, u, s.tables[u].level, q)
  {
    EnsureStep(s, t, p, flags);
    EnsureView(s, t, Idx(p, level), flags, u, q);
    if HwLeaf(s.mem, u, s.tables[u].level, q).Some? {
      EnsureHw(s, t, Idx(p, level), flags, u, s.tables[u].level, q);
    }
  }

  /** ... and no path the processor can walk. */
  lemma {:induction false} MapPathHw(s: Space, t: nat, level: nat, p: Page, flags: Flags, u: nat, q: Page)
    ensures Walkable(s, t, level, p, flags) && u in s.tables && HwLeaf(s.mem, u, s.tables[u].level, q).Some? ==>
              HwLeaf(MapPath(s, t, level, p, flags).mem, u, s.tables[u].level, q)
              == HwLeaf(s.mem, u, s.tables[u].level, q)
    decreases level
  {
    if level >= 2 && Walkable(s, t, level, p, flags) && u in s.tables {
      var (s1, c) := EnsureTable(s, t, level, Idx(p, level), flags);
      WalkStep(s, t, level, p, flags, s1, c);
      WalkStepView(s, t, level, p, flags, s1, c, u, q);
      MapPathHw(s1, c, level - 1, p, flags, u, q);
    }
  }

  /** The walk of `map` takes exactly as many frames as tables were missing. */
  lemma {:induction false} MapPathCost(s: Space, t: nat, level: nat, p: Page, flags: Flags)
    ensures Walkable(s, t, level, p, flags) ==>
              |FreeSet(MapPath(s, t, level, p, flags).pmm)| == |FreeSet(s.pmm)| - Missing(s.mem, t, level, p)
    decreases level
  {
    if level >= 2 && Walkable(s, t, level, p, flags) {
      var (s1, c) := EnsureTable(s, t, level, Idx(p, level), flags);
      WalkStep(s, t, level, p, flags, s1, c);
      MapPathCost(s1, c, level - 1, p, flags);
      StepCost(s, t, level, p, flags, s1, c);
    }
  }

  lemma StepCost(s: Space, t: nat, level: nat, p: Page, flags: Flags, s1: Space, c: nat)
    requires Walkable(s, t, level, p, flags) && level >= 2 && (s1, c) == EnsureTable(s, t, level, Idx(p, level), flags)
    ensures |FreeSet(s1.pmm)| - Missing(s1.mem, c, level - 1, p) == |FreeSet(s.pmm)| - Missing(s.mem, t, level, p)
  {
    if At(s.mem, Loc(t, Idx(p, level))).frame == 0 {
      StepTakes(s, t, level, p, flags, s1, c);
      BlankBelow(s1.mem, c, level - 1, p);
    } else {
      EnsureOld(s, t, Idx(p, level), flags);
      MissingSame(s.mem, s1.mem, c, level - 1, p);
    }
  }

  lemma StepTakes(s: Space, t: nat, level: nat, p: Page, flags: Flags, s1: Space, c: nat)
    requires Walkable(s, t, level, p, flags) && level >= 2 && (s1, c) == EnsureTable(s, t, level, Idx(p, level), flags)
    requires At(s.mem, Loc(t, Idx(p, level))).frame == 0
    ensures |FreeSet(s1.pmm)| == |FreeSet(s.pmm)| - 1 && Blank(s1.mem, c, level - 1) && c != 0
  {
    EnsureStep(s, t, p, flags);
    EnsureNew(s, t, Idx(p, level), flags);
  }

  lemma {:induction false} MissingBound(m: Mem, t: nat, level: nat, p: Page)
    ensures Missing(m, t, level, p) <= if level == 0 then 0 else level - 1
    decreases level
  {
    if level >= 2 {
      MissingBound(m, At(m, Loc(t, Idx(p, level))).frame, level - 1, p);
    }
  }
}
