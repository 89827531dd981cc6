/**
 What mapping and unmapping a page do to every translation of every address space.
 */
module Mapping {
  import opened Wrappers
  import opened PageTables

  /** A page whose entry may change: not the window, and not the page of a low table frame. */
  ghost predicate Mappable(s: Space, p: Page) {
    p != WINDOW && Unpinned(s, p)
  }

  ghost predicate Unpinned(s: Space, p: Page) {
    forall f: nat :: Pinned(s, f) ==> p != LowPage(f)
  }

  lemma WindowUnpinned(s: Space)
    ensures Unpinned(s, WINDOW)
  {
  }

  /** Every page from 8 MiB up to the end of the 48-bit address space qualifies. */
  lemma HighPagesMappable(s: Space, va: nat)
    requires 0x800000 <= va < 0x1_0000_0000_0000
    ensures Mappable(s, PageOf(va))
  {
    var p := PageOf(va);
    assert p.i4 == 0 && p.i3 == 0 ==> p.i2 >= 4;
    forall f: nat | Pinned(s, f) ensures p != LowPage(f) {
      assert LowPage(f).i4 == 0 && LowPage(f).i3 == 0 && LowPage(f).i2 < 4;
    }
  }

  /** map: walk, creating tables, then write the leaf entry. */
  ghost function Map(s: Space, r: nat, p: Page, e: Entry): Space {
    var s1 := MapPath(s, r, 4, p, e.flags);
    match Leaf(s1.mem, r, 4, p)
    case None => s1
    case Some(l) => s1.(mem := s1.mem[l := e])
  }

  /** unmap: clear the leaf entry if there is one. */
  ghost function Unmap(s: Space, r: nat, p: Page): Space {
    match Leaf(s.mem, r, 4, p)
    case None => s
    case Some(l) => s.(mem := s.mem[l := ZERO])
  }

  /** Page `q` of space `u` is the page `p` of space `r`: the same one, or both in the shared part. */
  ghost predicate SamePage(r: nat, p: Page, u: nat, q: Page) {
    p == q && (r == u || p.i4 == 0)
  }

  /** The window's slot is where the walk for the window page ends. */
  lemma WindowLeaf(s: Space)
    requires Inv(s)
    ensures var w := WindowSlot(s.mem, s.kernel);
      && HwLeaf(s.mem, s.kernel, 4, WINDOW) == Leaf(s.mem, s.kernel, 4, WINDOW) == Some(w)
      && w.frame in s.tables && s.tables[w.frame].level == 1
  {
    var m, k := s.mem, s.kernel;
    assert SlotOk(m, s.tables, k, k, 0);
    var t3 := At(m, Loc(k, 0)).frame;
    assert SlotOk(m, s.tables, k, t3, 0);
    var t2 := At(m, Loc(t3, 0)).frame;
    assert SlotOk(m, s.tables, k, t2, 1);
    var t1 := At(m, Loc(t2, 1)).frame;
    assert HwLeaf(m, t2, 2, WINDOW) == HwLeaf(m, t1, 1, WINDOW);
    assert HwLeaf(m, t3, 3, WINDOW) == HwLeaf(m, t2, 2, WINDOW);
    assert HwLeaf(m, k, 4, WINDOW) == HwLeaf(m, t3, 3, WINDOW);
    HwIsLeaf(m, s.tables, k, k, WINDOW);
  }

  /** A write outside the inner tables does not move the window. */
  lemma WindowFixed(s: Space, l: Loc, e: Entry)
    requires Inv(s) && (l.frame in s.tables ==> s.tables[l.frame].level == 1)
    ensures WindowReady(s.mem[l := e], s.kernel)
    ensures WindowSlot(s.mem[l := e], s.kernel) == WindowSlot(s.mem, s.kernel)
  {
    var m, k := s.mem, s.kernel;
    assert SlotOk(m, s.tables, k, k, 0);
    var t3 := At(m, Loc(k, 0)).frame;
    assert SlotOk(m, s.tables, k, t3, 0);
    var t2 := At(m, Loc(t3, 0)).frame;
    assert SlotOk(m, s.tables, k, t2, 1);
  }

  /** Storing into the leaf slot of a mappable page keeps the invariant. */
  lemma StoreLeafKeeps(s: Space, r: nat, p: Page, l: Loc, e: Entry)
    requires Inv(s) && IsRoot(s, r) && Unpinned(s, p) && Leaf(s.mem, r, 4, p) == Some(l)
    ensures Inv(s.(mem := s.mem[l := e]))
  {
    var s' := s.(mem := s.mem[l := e]);
    LeafLevel(s.mem, s.tables, s.kernel, r, p);
    LeafWriteKeepsTree(s.mem, s.tables, s.kernel, l, e);
    WindowFixed(s, l, e);
    forall f: nat | Pinned(s', f) ensures HwFrame(s'.mem, s.kernel, LowPage(f)) == Some(f) {
      assert Pinned(s, f);
      StoreLeafHw(s, r, p, l, e, s.kernel, LowPage(f));
    }
  }

  lemma StoreLeafOnlyTables(s: Space, r: nat, p: Page, l: Loc, e: Entry)
    requires Inv(s) && IsRoot(s, r) && Leaf(s.mem, r, 4, p) == Some(l)
    ensures OnlyTables(s, s.(mem := s.mem[l := e]))
  {
    LeafLevel(s.mem, s.tables, s.kernel, r, p);
  }

  /** The leaf slot of any other page is not the window's. */
  lemma LeafIsNotWindow(s: Space, r: nat, p: Page)
    requires Inv(s) && IsRoot(s, r) && p != WINDOW
    ensures Leaf(s.mem, r, 4, p) != Some(WindowSlot(s.mem, s.kernel))
  {
    WindowLeaf(s);
    if Leaf(s.mem, r, 4, p) == Leaf(s.mem, s.kernel, 4, WINDOW) {
      LeafInjective(s.mem, s.tables, s.kernel, r, p, s.kernel, WINDOW);
    }
  }

  /** A leaf store is seen through its own page only, by the software walk ... */
  lemma StoreLeafView(s: Space, r: nat, p: Page, l: Loc, e: Entry, u: nat, q: Page)
    requires Inv(s) && IsRoot(s, r) && IsRoot(s, u) && Leaf(s.mem, r, 4, p) == Some(l)
    ensures LeafEntry(s.mem[l := e], u, 4, q) == if SamePage(r, p, u, q) then e else LeafEntry(s.mem, u, 4, q)
  {
    LeafLevel(s.mem, s.tables, s.kernel, r, p);
    LeafWrite(s.mem, s.tables, s.kernel, l, e, u, q);
    if Leaf(s.mem, u, 4, q) == Some(l) {
      LeafInjective(s.mem, s.tables, s.kernel, r, p, u, q);
    } else if SamePage(r, p, u, q) && r != u {
      SharedLowHalf(s.mem, s.tables, s.kernel, r, p);
      SharedLowHalf(s.mem, s.tables, s.kernel, u, p);
    }
  }

  /** ... and by the processor. */
  lemma StoreLeafHw(s: Space, r: nat, p: Page, l: Loc, e: Entry, u: nat, q: Page)
    requires Inv(s) && IsRoot(s, r) && IsRoot(s, u) && Leaf(s.mem, r, 4, p) == Some(l) && !SamePage(r, p, u, q)
    ensures HwFrame(s.mem[l := e], u, q) == HwFrame(s.mem, u, q)
  {
    LeafLevel(s.mem, s.tables, s.kernel, r, p);
    LeafWrite(s.mem, s.tables, s.kernel, l, e, u, q);
    if HwLeaf(s.mem, u, 4, q) == Some(l) {
      HwIsLeaf(s.mem, s.tables, s.kernel, u, q);
      LeafInjective(s.mem, s.tables, s.kernel, r, p, u, q);
    }
  }

  // ---------- the theorems about map and unmap ----------

  ghost predicate MapReady(s: Space, r: nat, p: Page, flags: Flags) {
    Inv(s) && IsRoot(s, r) && Mappable(s, p) && CanMap(s, r, 4, p, flags)
  }

  /** A page whose tables all exist can be mapped whatever the free frames hold. */
  lemma ReadyWhenComplete(s: Space, r: nat, p: Page, flags: Flags)
    requires Inv(s) && IsRoot(s, r) && Mappable(s, p) && HUGE !in flags && Missing(s.mem, r, 4, p) == 0
    ensures MapReady(s, r, p, flags)
  {
    CleanWhenComplete(s, r, p, flags);
  }

  lemma MappableGrown(s: Space, s': Space, p: Page)
    requires Grows(s, s') && Mappable(s, p)
    ensures Mappable(s', p)
  {
    forall f: nat | Pinned(s', f) ensures p != LowPage(f) {
      assert f in NewTables(s, s') ==> f in FreeSet(s.pmm);
      assert Pinned(s, f);
    }
  }

  lemma StoreLeafGrows(s: Space, s1: Space, r: nat, p: Page, l: Loc, e: Entry)
    requires Grows(s, s1) && Inv(s1) && IsRoot(s1, r) && Leaf(s1.mem, r, 4, p) == Some(l)
    ensures Grows(s, s1.(mem := s1.mem[l := e]))
  {
    var s' := s1.(mem := s1.mem[l := e]);
    StoreLeafOnlyTables(s1, r, p, l, e);
    assert NewTables(s, s') == NewTables(s, s1);
  }

  /** map keeps the invariant; the only frames it takes are those of the tables it creates. */
  lemma MapKeeps(s: Space, r: nat, p: Page, e: Entry)
    requires MapReady(s, r, p, e.flags)
    ensures var s' := Map(s, r, p, e); Inv(s') && Grows(s, s')
  {
    var s1 := MapPath(s, r, 4, p, e.flags);
    MapPathKeeps(s, r, 4, p, e.flags);
    MapPathGrows(s, r, 4, p, e.flags);
    MapPathReaches(s, r, 4, p, e.flags);
    MappableGrown(s, s1, p);
    var l := Leaf(s1.mem, r, 4, p).value;
    StoreLeafKeeps(s1, r, p, l, e);
    StoreLeafGrows(s, s1, r, p, l, e);
  }

  /** map gives page `p` its entry, and changes the entry of no other page of any space. */
  lemma MapView(s: Space, r: nat, p: Page, e: Entry, u: nat, q: Page)
    requires MapReady(s, r, p, e.flags) && IsRoot(s, u)
    ensures LeafEntry(Map(s, r, p, e).mem, u, 4, q) == if SamePage(r, p, u, q) then e else LeafEntry(s.mem, u, 4, q)
  {
    var s1 := MapPath(s, r, 4, p, e.flags);
    MapPathKeeps(s, r, 4, p, e.flags);
    MapPathGrows(s, r, 4, p, e.flags);
    MapPathReaches(s, r, 4, p, e.flags);
    MapPathView(s, r, 4, p, e.flags, u, q);
    StoreLeafView(s1, r, p, Leaf(s1.mem, r, 4, p).value, e, u, q);
  }

  /** With present flags the processor reaches the mapped frame; what it reached through any
      other page it still reaches. */
  lemma MapHw(s: Space, r: nat, p: Page, e: Entry, u: nat, q: Page)
    requires MapReady(s, r, p, e.flags) && IsRoot(s, u)
    ensures PRESENT in e.flags ==> HwFrame(Map(s, r, p, e).mem, r, p) == Some(e.frame)
    ensures !SamePage(r, p, u, q) && HwFrame(s.mem, u, q).Some? ==>
              HwFrame(Map(s, r, p, e).mem, u, q) == HwFrame(s.mem, u, q)
  {
    var s1 := MapPath(s, r, 4, p, e.flags);
    MapPathKeeps(s, r, 4, p, e.flags);
    MapPathGrows(s, r, 4, p, e.flags);
    MapPathReaches(s, r, 4, p, e.flags);
    var l := Leaf(s1.mem, r, 4, p).value;
    LeafLevel(s1.mem, s1.tables, s1.kernel, r, p);
    LeafWrite(s1.mem, s1.tables, s1.kernel, l, e, r, p);
    if !SamePage(r, p, u, q) && HwFrame(s.mem, u, q).Some? {
      MapHwOther(s, r, p, e, s1, l, u, q);
    }
  }

  lemma MapHwOther(s: Space, r: nat, p: Page, e: Entry, s1: Space, l: Loc, u: nat, q: Page)
    requires MapReady(s, r, p, e.flags) && IsRoot(s, u) && !SamePage(r, p, u, q) && HwFrame(s.mem, u, q).Some?
    requires s1 == MapPath(s, r, 4, p, e.flags) && Inv(s1) && Grows(s, s1) && Leaf(s1.mem, r, 4, p) == Some(l)
    ensures HwFrame(s1.mem[l := e], u, q) == HwFrame(s.mem, u, q)
  {
    MapPathView(s, r, 4, p, e.flags, u, q);
    MapPathHw(s, r, 4, p, e.flags, u, q);
    HwIsLeaf(s.mem, s.tables, s.kernel, u, q);
    HwIsLeaf(s1.mem, s1.tables, s1.kernel, u, q);
    LeafLevel(s.mem, s.tables, s.kernel, u, q);
    LeafLevel(s1.mem, s1.tables, s1.kernel, u, q);
    StoreLeafHw(s1, r, p, l, e, u, q);
  }

  /** `s'` differs from `s` in the entry of page `p` of space `r` only, for every address space. */
  ghost predicate Remaps(s: Space, r: nat, p: Page, e: Entry, s': Space) {
    && KeepsRoots(s, s')
    && forall u: nat, q: Page :: IsRoot(s, u) ==>
         LeafEntry(s'.mem, u, 4, q) == if SamePage(r, p, u, q) then e else LeafEntry(s.mem, u, 4, q)
  }

  ghost predicate KeepsRoots(s: Space, s': Space) {
    forall u: nat :: IsRoot(s, u) ==> IsRoot(s', u)
  }

  /** The effect of map on all translations at once. */
  lemma MapRemaps(s: Space, r: nat, p: Page, e: Entry, s': Space)
    requires MapReady(s, r, p, e.flags) && s' == Map(s, r, p, e)
    ensures Remaps(s, r, p, e, s')
  {
    MapKeepsRoots(s, r, p, e, s');
    forall u: nat, q: Page | IsRoot(s, u)
      ensures LeafEntry(s'.mem, u, 4, q) == if SamePage(r, p, u, q) then e else LeafEntry(s.mem, u, 4, q)
    {
      MapViewIn(s, r, p, e, s', u, q);
    }
  }

  lemma MapKeepsRoots(s: Space, r: nat, p: Page, e: Entry, s': Space)
    requires MapReady(s, r, p, e.flags) && s' == Map(s, r, p, e)
    ensures KeepsRoots(s, s')
  {
    MapKeeps(s, r, p, e);
  }

  lemma MapViewIn(s: Space, r: nat, p: Page, e: Entry, s': Space, u: nat, q: Page)
    requires MapReady(s, r, p, e.flags) && IsRoot(s, u) && s' == Map(s, r, p, e)
    ensures LeafEntry(s'.mem, u, 4, q) == if SamePage(r, p, u, q) then e else LeafEntry(s.mem, u, 4, q)
  {
    MapView(s, r, p, e, u, q);
  }

  lemma UnmapRemaps(s: Space, r: nat, p: Page)
    requires Inv(s) && IsRoot(s, r)
    ensures Remaps(s, r, p, ZERO, Unmap(s, r, p))
  {
    var s' := Unmap(s, r, p);
    forall u: nat, q: Page | IsRoot(s, u)
      ensures LeafEntry(s'.mem, u, 4, q) == if SamePage(r, p, u, q) then ZERO else LeafEntry(s.mem, u, 4, q)
    {
      UnmapView(s, r, p, u, q);
    }
  }

  lemma UnmapKeeps(s: Space, r: nat, p: Page)
    requires Inv(s) && IsRoot(s, r) && Mappable(s, p)
    ensures Inv(Unmap(s, r, p)) && OnlyTables(s, Unmap(s, r, p))
  {
    var l := Leaf(s.mem, r, 4, p);
    if l.Some? {
      StoreLeafKeeps(s, r, p, l.value, ZERO);
      StoreLeafOnlyTables(s, r, p, l.value, ZERO);
    }
  }

  lemma UnmapView(s: Space, r: nat, p: Page, u: nat, q: Page)
    requires Inv(s) && IsRoot(s, r) && IsRoot(s, u)
    ensures LeafEntry(Unmap(s, r, p).mem, u, 4, q) == if SamePage(r, p, u, q) then ZERO else LeafEntry(s.mem, u, 4, q)
  {
    var l := Leaf(s.mem, r, 4, p);
    if l.Some? {
      StoreLeafView(s, r, p, l.value, ZERO, u, q);
    } else {
      LeafNone(s.mem, r, 4, p);
      if SamePage(r, p, u, q) && r != u {
        SharedLowHalf(s.mem, s.tables, s.kernel, r, p);
        SharedLowHalf(s.mem, s.tables, s.kernel, u, p);
      }
    }
  }

  lemma {:induction false} LeafNone(m: Mem, t: nat, level: nat, p: Page)
    requires Leaf(m, t, level, p).None?
    ensures LeafEntry(m, t, level, p) == ZERO
    decreases level
  {
    var e := At(m, Loc(t, Idx(p, level)));
    if e.frame != 0 {
      LeafNone(m, e.frame, level - 1, p);
    }
  }

  /** Unmapping a page that was not mapped before undoes the mapping for every translation. */
  lemma UnmapUndoesMap(s: Space, r: nat, p: Page, e: Entry, u: nat, q: Page)
    requires MapReady(s, r, p, e.flags) && IsRoot(s, u) && LeafEntry(s.mem, r, 4, p) == ZERO
    ensures LeafEntry(Unmap(Map(s, r, p, e), r, p).mem, u, 4, q) == LeafEntry(s.mem, u, 4, q)
  {
    MapKeeps(s, r, p, e);
    MapView(s, r, p, e, u, q);
    UnmapView(Map(s, r, p, e), r, p, u, q);
    if SamePage(r, p, u, q) && r != u {
      SharedLowHalf(s.mem, s.tables, s.kernel, r, p);
      SharedLowHalf(s.mem, s.tables, s.kernel, u, p);
    }
  }

  // ---------- what the processor reaches ----------

  /** The processor reaches exactly the frames the software walk finds. */
  ghost predicate HwAgrees(s: Space) {
    forall u: nat, q: Page | IsRoot(s, u) :: HwFrame(s.mem, u, q) == Translate(s.mem, u, q)
  }

  /** It never reaches any other. */
  lemma HwTranslates(s: Space, u: nat, q: Page)
    requires Inv(s) && IsRoot(s, u)
    ensures HwFrame(s.mem, u, q).Some? ==> HwFrame(s.mem, u, q) == Translate(s.mem, u, q)
  {
    if HwFrame(s.mem, u, q).Some? {
      HwIsLeaf(s.mem, s.tables, s.kernel, u, q);
      LeafLevel(s.mem, s.tables, s.kernel, u, q);
    }
  }

  lemma {:induction false} AllPresentLeaf(m: Mem, T: Tables, k: nat, t: nat, q: Page)
    requires Tree(m, T, k) && t in T
    requires forall u, i: Index :: u in T && T[u].level >= 2 && At(m, Loc(u, i)).frame != 0 ==>
               Present(At(m, Loc(u, i)))
    ensures HwLeaf(m, t, T[t].level, q) == Leaf(m, t, T[t].level, q)
    decreases T[t].level
  {
    if T[t].level >= 2 {
      assert SlotOk(m, T, k, t, Idx(q, T[t].level));
      var c := At(m, Loc(t, Idx(q, T[t].level))).frame;
      if c != 0 {
        AllPresentLeaf(m, T, k, c, q);
      }
    }
  }

  /** They agree if all links are present. */
  lemma AllPresentAgrees(s: Space)
    requires Inv(s)
    requires forall u, i: Index :: u in s.tables && s.tables[u].level >= 2 && At(s.mem, Loc(u, i)).frame != 0 ==>
               Present(At(s.mem, Loc(u, i)))
    ensures HwAgrees(s)
  {
    forall u: nat, q: Page | IsRoot(s, u) ensures HwFrame(s.mem, u, q) == Translate(s.mem, u, q) {
      AllPresentLeaf(s.mem, s.tables, s.kernel, u, q);
      if Leaf(s.mem, u, 4, q).Some? {
        LeafLevel(s.mem, s.tables, s.kernel, u, q);
      } else {
        LeafNone(s.mem, u, 4, q);
      }
    }
  }

  lemma {:induction false} MapPathRoots(s: Space, t: nat, level: nat, p: Page, flags: Flags, u: nat)
    requires level <= 4
    ensures IsRoot(MapPath(s, t, level, p, flags), u) ==> IsRoot(s, u)
    decreases level
  {
    if level >= 2 {
      var (s1, c) := EnsureTable(s, t, level, Idx(p, level), flags);
      MapPathRoots(s1, c, level - 1, p, flags, u);
    }
  }

  /** map adds no address space. */
  lemma MapRoots(s: Space, r: nat, p: Page, e: Entry, u: nat)
    ensures IsRoot(Map(s, r, p, e), u) ==> IsRoot(s, u)
  {
    MapPathRoots(s, r, 4, p, e.flags, u);
  }

  lemma MapReaches(s: Space, r: nat, p: Page, e: Entry, s': Space, u: nat, q: Page)
    requires MapReady(s, r, p, e.flags) && HwAgrees(s) && IsRoot(s, u) && s' == Map(s, r, p, e)
    ensures HwFrame(s'.mem, u, q) == Translate(s'.mem, u, q)
  {
    MapKeeps(s, r, p, e);
    MapView(s, r, p, e, u, q);
    MapHw(s, r, p, e, u, q);
    HwTranslates(s', u, q);
    if SamePage(r, p, u, q) && u != r {
      SharedLowHalf(s'.mem, s'.tables, s'.kernel, u, q);
      SharedLowHalf(s'.mem, s'.tables, s'.kernel, r, q);
    }
  }

  /** map keeps processor and software walk in step ... */
  lemma MapAgrees(s: Space, r: nat, p: Page, e: Entry, s': Space)
    requires MapReady(s, r, p, e.flags) && HwAgrees(s) && s' == Map(s, r, p, e)
    ensures HwAgrees(s')
  {
    forall u: nat, q: Page | IsRoot(s', u) ensures HwFrame(s'.mem, u, q) == Translate(s'.mem, u, q) {
      MapRoots(s, r, p, e, u);
      MapReaches(s, r, p, e, s', u, q);
    }
  }

  lemma UnmapReaches(s: Space, r: nat, p: Page, u: nat, q: Page)
    requires Inv(s) && IsRoot(s, r) && Mappable(s, p) && HwAgrees(s) && IsRoot(s, u)
    ensures HwFrame(Unmap(s, r, p).mem, u, q) == Translate(Unmap(s, r, p).mem, u, q)
  {
    UnmapKeeps(s, r, p);
    UnmapView(s, r, p, u, q);
    HwTranslates(Unmap(s, r, p), u, q);
    var l := Leaf(s.mem, r, 4, p);
    if l.Some? && !SamePage(r, p, u, q) {
      StoreLeafHw(s, r, p, l.value, ZERO, u, q);
    }
  }

  /** ... and so does unmap. */
  lemma UnmapAgrees(s: Space, r: nat, p: Page)
    requires Inv(s) && IsRoot(s, r) && Mappable(s, p) && HwAgrees(s)
    ensures HwAgrees(Unmap(s, r, p))
  {
    forall u: nat, q: Page | IsRoot(Unmap(s, r, p), u)
      ensures HwFrame(Unmap(s, r, p).mem, u, q) == Translate(Unmap(s, r, p).mem, u, q)
    {
      UnmapReaches(s, r, p, u, q);
    }
  }

  /** A change outside the tables does not matter. */
  lemma SameReaches(s: Space, m: Mem, u: nat, q: Page)
    requires Inv(s) && IsRoot(s, u) && forall l: Loc :: l.frame in s.tables ==> At(m, l) == At(s.mem, l)
    ensures HwFrame(m, u, q) == HwFrame(s.mem, u, q) && LeafEntry(m, u, 4, q) == LeafEntry(s.mem, u, 4, q)
  {
    SameOnTables(s.mem, m, s.tables, s.kernel, u, q);
  }

  lemma SameAgrees(s: Space, s': Space)
    requires Inv(s) && HwAgrees(s) && s'.tables == s.tables
    requires forall l: Loc :: l.frame in s.tables ==> At(s'.mem, l) == At(s.mem, l)
    ensures HwAgrees(s')
  {
    forall u: nat, q: Page | IsRoot(s', u) ensures HwFrame(s'.mem, u, q) == Translate(s'.mem, u, q) {
      assert IsRoot(s, u);
      SameReaches(s, s'.mem, u, q);
      assert HwFrame(s.mem, u, q) == Translate(s.mem, u, q);
    }
  }

  // ---------- how many frames mapping takes ----------

  /** Adding a link never makes more tables missing. */
  lemma {:induction false} MissingAfterLink(m: Mem, l: Loc, e: Entry, t: nat, level: nat, q: Page)
    requires At(m, l).frame == 0 || e.frame == At(m, l).frame
    ensures Missing(m[l := e], t, level, q) <= Missing(m, t, level, q)
    decreases level
  {
    if level >= 2 {
      var c := At(m, Loc(t, Idx(q, level))).frame;
      if c != 0 {
        MissingAfterLink(m, l, e, c, level - 1, q);
      } else {
        MissingBound(m[l := e], At(m[l := e], Loc(t, Idx(q, level))).frame, level - 1, q);
      }
    }
  }

  lemma EnsureMissing(s: Space, t: nat, i: Index, flags: Flags, u: nat, q: Page)
    requires Inv(s) && t in s.tables && s.tables[t].level >= 2
    ensures Missing(EnsureTable(s, t, s.tables[t].level, i, flags).0.mem, u, 4, q) <= Missing(s.mem, u, 4, q)
  {
    var s1 := EnsureTable(s, t, s.tables[t].level, i, flags).0;
    AbsentIsNull(s, t, i);
    if s1.mem != s.mem {
      MissingAfterLink(s.mem, Loc(t, i), s1.mem[Loc(t, i)], u, 4, q);
    }
  }

  lemma {:induction false} MapPathMissing(s: Space, t: nat, level: nat, p: Page, flags: Flags, u: nat, q: Page)
    ensures Walkable(s, t, level, p, flags) ==>
              Missing(MapPath(s, t, level, p, flags).mem, u, 4, q) <= Missing(s.mem, u, 4, q)
    decreases level
  {
    if level >= 2 && Walkable(s, t, level, p, flags) {
      var (s1, c) := EnsureTable(s, t, level, Idx(p, level), flags);
      WalkStep(s, t, level, p, flags, s1, c);
      EnsureMissing(s, t, Idx(p, level), flags, u, q);
      MapPathMissing(s1, c, level - 1, p, flags, u, q);
    }
  }

  lemma {:induction false} MissingAfterLeaf(m: Mem, T: Tables, k: nat, l: Loc, e: Entry, t: nat, q: Page)
    requires Tree(m, T, k) && (l.frame in T ==> T[l.frame].level == 1) && t in T
    ensures Missing(m[l := e], t, T[t].level, q) == Missing(m, t, T[t].level, q)
    decreases T[t].level
  {
    if T[t].level >= 2 {
      assert SlotOk(m, T, k, t, Idx(q, T[t].level));
      var c := At(m, Loc(t, Idx(q, T[t].level))).frame;
      if c != 0 {
        MissingAfterLeaf(m, T, k, l, e, c, q);
      }
    }
  }

  /** map takes exactly the frames page `p` was missing, and leaves no page missing more. */
  lemma MapCost(s: Space, r: nat, p: Page, e: Entry, s': Space, u: nat, q: Page)
    requires MapReady(s, r, p, e.flags) && IsRoot(s, u) && s' == Map(s, r, p, e)
    ensures |FreeSet(s'.pmm)| == |FreeSet(s.pmm)| - Missing(s.mem, r, 4, p)
    ensures Missing(s'.mem, u, 4, q) <= Missing(s.mem, u, 4, q)
  {
    var s1 := MapPath(s, r, 4, p, e.flags);
    MapPathCost(s, r, 4, p, e.flags);
    MapPathMissing(s, r, 4, p, e.flags, u, q);
    MapPathKeeps(s, r, 4, p, e.flags);
    MapPathGrows(s, r, 4, p, e.flags);
    MapPathReaches(s, r, 4, p, e.flags);
    LeafLevel(s1.mem, s1.tables, s1.kernel, r, p);
    MissingAfterLeaf(s1.mem, s1.tables, s1.kernel, Leaf(s1.mem, r, 4, p).value, e, u, q);
  }

  lemma {:induction false} LeafMissesNothing(m: Mem, t: nat, level: nat, p: Page, q: Page)
    requires level <= 4 && Leaf(m, t, level, p).Some? && p.i4 == q.i4 && p.i3 == q.i3 && p.i2 == q.i2
    ensures Missing(m, t, level, q) == 0
    decreases level
  {
    if level >= 2 {
      LeafMissesNothing(m, At(m, Loc(t, Idx(p, level))).frame, level - 1, p, q);
    }
  }

  /** Once a page is mapped, the others of its leaf table need no further frames. */
  lemma NeighbourNeedsNothing(s: Space, r: nat, p: Page, e: Entry, q: Page)
    requires MapReady(s, r, p, e.flags) && p.i4 == q.i4 && p.i3 == q.i3 && p.i2 == q.i2
    ensures Missing(Map(s, r, p, e).mem, r, 4, q) == 0
  {
    var s1 := MapPath(s, r, 4, p, e.flags);
    MapPathKeeps(s, r, 4, p, e.flags);
    MapPathGrows(s, r, 4, p, e.flags);
    MapPathReaches(s, r, 4, p, e.flags);
    var l := Leaf(s1.mem, r, 4, p).value;
    LeafLevel(s1.mem, s1.tables, s1.kernel, r, p);
    LeafWrite(s1.mem, s1.tables, s1.kernel, l, e, r, p);
    LeafMissesNothing(s1.mem[l := e], r, 4, p, q);
  }
}
