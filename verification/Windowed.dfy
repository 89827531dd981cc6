/**
 Facts the windowed code relies on: which pointers are safe to follow, what remapping the
 window changes, and that the reference walk does not depend on where the window points.
 */
module Windowed {
  import opened Wrappers
  import opened Frames
  import opened PageTables
  import opened Mapping

  /** The entry tmp_map writes. */
  function WindowEntry(f: nat): Entry {
    Entry(f, {PRESENT, WRITEABLE})
  }

  /** The state with the window's own entry blanked out: all that clients can rely on. */
  ghost function Mask(s: Space): Space {
    s.(mem := s.mem[WindowSlot(s.mem, s.kernel) := ZERO])
  }

  lemma LowAddress(t: nat, i: Index)
    requires t < LOW
    ensures PageOf(t * 0x1000 + 8 * i) == LowPage(t) && WordOf(t * 0x1000 + 8 * i) == i
    ensures LowPage(t).i4 == 0
  {
    InPage(t, 8 * i);
    SameDigits(t * 0x1000 + 8 * i, t * 0x1000, t);
    LowPageTop(t);
  }

  lemma InPage(t: nat, d: nat)
    requires d < 0x1000
    ensures (t * 0x1000 + d) / 0x1000 == t && (t * 0x1000 + d) % 0x1000 == d
  {
  }

  lemma LowPageTop(t: nat)
    requires t < LOW
    ensures LowPage(t).i4 == 0
  {
  }

  /** A low table is reached by its physical address. */
  lemma ResolveLow(s: Space, cr3: nat, t: nat, i: Index)
    requires Inv(s) && IsRoot(s, cr3) && t in s.tables && t < LOW
    ensures Resolve(s.mem, cr3, t * 0x1000 + 8 * i) == Some(Loc(t, i))
  {
    LowAddress(t, i);
    assert Pinned(s, t);
    SharedLowHalf(s.mem, s.tables, s.kernel, cr3, LowPage(t));
  }

  /** The window leads to the frame in its entry, whichever address space is active. */
  lemma ResolveWindow(s: Space, cr3: nat, f: nat, i: Index)
    requires Inv(s) && IsRoot(s, cr3) && At(s.mem, WindowSlot(s.mem, s.kernel)) == WindowEntry(f)
    ensures Resolve(s.mem, cr3, WINDOW_ADDR + 8 * i) == Some(Loc(f, i))
  {
    assert PageOf(WINDOW_ADDR + 8 * i) == WINDOW;
    WindowLeaf(s);
    SharedLowHalf(s.mem, s.tables, s.kernel, cr3, WINDOW);
  }

  /** Remapping the window keeps the invariant and the masked state. */
  lemma Remap(s: Space, e: Entry)
    requires Inv(s)
    ensures var s' := s.(mem := s.mem[WindowSlot(s.mem, s.kernel) := e]);
      && Inv(s') && WindowSlot(s'.mem, s'.kernel) == WindowSlot(s.mem, s.kernel) && Mask(s') == Mask(s)
  {
    var w := WindowSlot(s.mem, s.kernel);
    WindowLeaf(s);
    WindowUnpinned(s);
    StoreLeafKeeps(s, s.kernel, WINDOW, w, e);
    WindowFixed(s, w, e);
    assert s.mem[w := e][w := ZERO] == s.mem[w := ZERO];
  }

  lemma MaskKeeps(s: Space)
    requires Inv(s)
    ensures Inv(Mask(s)) && Mask(Mask(s)) == Mask(s)
    ensures WindowSlot(Mask(s).mem, s.kernel) == WindowSlot(s.mem, s.kernel)
    ensures OnlyTables(s, Mask(s)) && forall f: nat :: IsFree(Mask(s), f) <==> IsFree(s, f)
  {
    Remap(s, ZERO);
    WindowLeaf(s);
    var w := WindowSlot(s.mem, s.kernel);
    assert forall f: nat :: IsFree(s, f) ==> f != w.frame;
  }

  /** Inner tables look the same through the mask. */
  lemma MaskInner(s: Space, t: nat, i: Index)
    requires Inv(s) && t in s.tables && s.tables[t].level >= 2
    ensures At(Mask(s).mem, Loc(t, i)) == At(s.mem, Loc(t, i)) && WindowSlot(s.mem, s.kernel) != Loc(t, i)
  {
    WindowLeaf(s);
  }

  /** Nor does the mask change what a new table would find. */
  lemma MaskCanEnsure(s: Space, t: nat, i: Index)
    requires Inv(s) && t in s.tables && s.tables[t].level >= 2
    ensures CanEnsure(Mask(s), t, s.tables[t].level, i) <==> CanEnsure(s, t, s.tables[t].level, i)
  {
    MaskInner(s, t, i);
    MaskKeeps(s);
    if FreeSet(s.pmm) != {} {
      TakesFree(s);
      BlankSame(s.mem, Mask(s).mem, Alloc(s.pmm, 1).0, s.tables[t].level - 1);
    }
  }

  lemma BlankSame(m: Mem, m': Mem, f: nat, level: nat)
    requires forall i: Index :: At(m', Loc(f, i)) == At(m, Loc(f, i))
    ensures Blank(m', f, level) <==> Blank(m, f, level)
  {
  }

  /** One step of the reference walk commutes with the mask. */
  lemma MaskEnsure(s: Space, t: nat, i: Index, flags: Flags)
    requires Inv(s) && t in s.tables && s.tables[t].level >= 2
    ensures var (s', c) := EnsureTable(s, t, s.tables[t].level, i, flags);
      && EnsureTable(Mask(s), t, s.tables[t].level, i, flags) == (Mask(s'), c)
      && WindowSlot(s'.mem, s'.kernel) == WindowSlot(s.mem, s.kernel)
  {
    var w := WindowSlot(s.mem, s.kernel);
    var s' := EnsureTable(s, t, s.tables[t].level, i, flags).0;
    MaskInner(s, t, i);
    assert SlotOk(s.mem, s.tables, s.kernel, t, i);
    if !Present(At(s.mem, Loc(t, i))) {
      WindowStable(s.mem, Loc(t, i), s'.mem[Loc(t, i)], s.kernel);
      assert s.mem[Loc(t, i) := s'.mem[Loc(t, i)]][w := ZERO] == s.mem[w := ZERO][Loc(t, i) := s'.mem[Loc(t, i)]];
    }
  }

  /** The leaf slot of a page does not depend on the window. */
  lemma MaskLeaf(s: Space, t: nat, p: Page)
    requires Inv(s) && t in s.tables
    ensures Leaf(Mask(s).mem, t, s.tables[t].level, p) == Leaf(s.mem, t, s.tables[t].level, p)
  {
    WindowLeaf(s);
    LeafWrite(s.mem, s.tables, s.kernel, WindowSlot(s.mem, s.kernel), ZERO, t, p);
  }

  // ---------- what the masked state says about memory ----------

  /** Every page but the window itself has the same entry with the window's entry blanked out. */
  lemma MaskEntry(s: Space, u: nat, q: Page)
    requires Inv(s) && IsRoot(s, u) && q != WINDOW
    ensures LeafEntry(Mask(s).mem, u, 4, q) == LeafEntry(s.mem, u, 4, q)
    ensures HwFrame(Mask(s).mem, u, q) == HwFrame(s.mem, u, q)
  {
    WindowLeaf(s);
    StoreLeafView(s, s.kernel, WINDOW, WindowSlot(s.mem, s.kernel), ZERO, u, q);
    StoreLeafHw(s, s.kernel, WINDOW, WindowSlot(s.mem, s.kernel), ZERO, u, q);
  }

  /** After map, whatever the window shows before and after: the page has the entry given, in every
      space that shares it, and each other page but the window the entry it had. */
  lemma MapSeen(s: Space, r: nat, p: Page, e: Entry, s': Space, u: nat, q: Page)
    requires Inv(s) && Inv(s') && MapReady(Mask(s), r, p, e.flags) && Mask(s') == Map(Mask(s), r, p, e)
    requires IsRoot(s, u) && q != WINDOW
    ensures LeafEntry(s'.mem, u, 4, q) == if q == p && (u == r || q.i4 == 0) then e else LeafEntry(s.mem, u, 4, q)
    ensures PRESENT in e.flags && u == r && q == p ==> HwFrame(s'.mem, u, q) == Some(e.frame)
  {
    MaskKeeps(s);
    MapKeeps(Mask(s), r, p, e);
    MapView(Mask(s), r, p, e, u, q);
    MapHw(Mask(s), r, p, e, u, q);
    assert IsRoot(s', u);
    MaskEntry(s, u, q);
    MaskEntry(s', u, q);
  }

  /** After unmap the page has none, and each other page but the window the entry it had. */
  lemma UnmapSeen(s: Space, r: nat, p: Page, s': Space, u: nat, q: Page)
    requires Inv(s) && Inv(s') && IsRoot(s, r) && Mappable(Mask(s), p) && Mask(s') == Unmap(Mask(s), r, p)
    requires IsRoot(s, u) && q != WINDOW
    ensures LeafEntry(s'.mem, u, 4, q)
            == if q == p && (u == r || q.i4 == 0) then Entry(0, {}) else LeafEntry(s.mem, u, 4, q)
  {
    MaskKeeps(s);
    UnmapView(Mask(s), r, p, u, q);
    assert IsRoot(s', u);
    MaskEntry(s, u, q);
    MaskEntry(s', u, q);
  }
}
