/**
 Which flags the links on the way to a page have, and so what the processor permits: it ands the
 writeable and user bits of all four entries (section 4.6 of the Intel SDM, volume 3A).  A link keeps
 the flags it was created with, so an early mapping restricts later ones beside it.
 */
module Permissions {
  import opened Wrappers
  import opened PageTables
  import opened Mapping

  // ---------- the flags of links ----------

  /** A new link gets exactly the flags given, one that is not present gets them besides its own, and
      a present one stays as it is; no other word changes. */
  lemma EnsureFlags(s: Space, t: nat, level: nat, i: Index, flags: Flags, l: Loc)
    requires Inv(s) && t in s.tables && s.tables[t].level == level >= 2
    ensures var (s', c) := EnsureTable(s, t, level, i, flags);
      var before, after := At(s.mem, l), At(s'.mem, l);
      if l != Loc(t, i) then after == before
      else
        && after.frame == c
        && (before.frame == 0 ==> forall b: nat :: b in after.flags <==> b in flags)
        && (before.frame != 0 && Present(before) ==> after == before)
        && (before.frame != 0 && !Present(before) ==>
              after.frame == before.frame && forall b: nat :: b in after.flags <==> b in before.flags || b in flags)
  {
    AbsentIsNull(s, t, i);
  }

  /** What a walk with the given flags may do to a word. */
  ghost predicate Linkage(before: Entry, after: Entry, flags: Flags) {
    || after == before
    || (before.frame == 0 && after.frame != 0 && after.flags == flags)
    || (before.frame != 0 && !Present(before) && after == Entry(before.frame, before.flags + flags))
  }

  /** The walk of map writes nothing but links: new ones with the flags given, and these flags added
      to links that are not present. */
  lemma {:induction false} MapPathLinks(s: Space, t: nat, level: nat, p: Page, flags: Flags, l: Loc)
    ensures Walkable(s, t, level, p, flags) ==> Linkage(At(s.mem, l), At(MapPath(s, t, level, p, flags).mem, l), flags)
    decreases level
  {
    if level >= 2 && Walkable(s, t, level, p, flags) {
      var (s1, c) := EnsureTable(s, t, level, Idx(p, level), flags);
      WalkStep(s, t, level, p, flags, s1, c);
      EnsureStep(s, t, p, flags);
      EnsureFlags(s, t, level, Idx(p, level), flags, l);
      MapPathLinks(s1, c, level - 1, p, flags, l);
      if l == Loc(t, Idx(p, level)) {
        MapPathLink(s1, c, level - 1, p, flags, l);
      }
    }
  }

  /** So does map, apart from the entry itself. */
  lemma MapLinks(s: Space, r: nat, p: Page, e: Entry, s': Space, l: Loc)
    requires MapReady(s, r, p, e.flags) && s' == Map(s, r, p, e)
    ensures || (Leaf(s'.mem, r, 4, p) == Some(l) && At(s'.mem, l) == e)
            || Linkage(At(s.mem, l), At(s'.mem, l), e.flags)
  {
    var s1 := MapPath(s, r, 4, p, e.flags);
    MapPathLinks(s, r, 4, p, e.flags, l);
    MapPathKeeps(s, r, 4, p, e.flags);
    MapPathGrows(s, r, 4, p, e.flags);
    MapPathReaches(s, r, 4, p, e.flags);
    LeafLevel(s1.mem, s1.tables, s1.kernel, r, p);
    LeafWrite(s1.mem, s1.tables, s1.kernel, Leaf(s1.mem, r, 4, p).value, e, r, p);
  }

  // ---------- what the processor permits ----------

  /** All entries on the way to page `p`, the last one included, have bit `b`. */
  ghost predicate Permits(m: Mem, t: nat, level: nat, p: Page, b: nat)
    decreases level, p
  {
    if level <= 1 then b in At(m, Loc(t, p.i1)).flags
    else
      var e := At(m, Loc(t, Idx(p, level)));
      b in e.flags && Permits(m, e.frame, level - 1, p, b)
  }

  /** The processor reaches a frame through the page, with the right bit `b` stands for. */
  ghost predicate HwPermits(m: Mem, root: nat, p: Page, b: nat) {
    HwFrame(m, root, p).Some? && Permits(m, root, 4, p, b)
  }

  /** The links that exist on the way do not stand against it. */
  ghost predicate LinksPermit(m: Mem, t: nat, level: nat, p: Page, b: nat)
    decreases level, p
  {
    level <= 1 ||
    var e := At(m, Loc(t, Idx(p, level)));
    e.frame == 0 || ((Present(e) ==> b in e.flags) && LinksPermit(m, e.frame, level - 1, p, b))
  }

  /** Where all links are present, they permit what the links and the last entry permit. */
  lemma {:induction false} PermitsLinks(m: Mem, T: Tables, k: nat, t: nat, p: Page, b: nat)
    requires Tree(m, T, k) && t in T && HwLeaf(m, t, T[t].level, p).Some?
    ensures Permits(m, t, T[t].level, p, b)
            <==> LinksPermit(m, t, T[t].level, p, b) && b in LeafEntry(m, t, T[t].level, p).flags
    decreases T[t].level
  {
    if T[t].level >= 2 {
      assert SlotOk(m, T, k, t, Idx(p, T[t].level));
      PermitsLinks(m, T, k, At(m, Loc(t, Idx(p, T[t].level))).frame, p, b);
    }
  }

  /** One step of a walk whose flags have the bit takes no right away and adds none. */
  lemma {:induction false} EnsurePermits(s: Space, t: nat, i: Index, flags: Flags, u: nat, q: Page, b: nat)
    requires Inv(s) && t in s.tables && s.tables[t].level >= 2 && HUGE !in flags && b in flags
    requires CanEnsure(s, t, s.tables[t].level, i) && u in s.tables
    ensures var m' := EnsureTable(s, t, s.tables[t].level, i, flags).0.mem;
      LinksPermit(m', u, s.tables[u].level, q, b) <==> LinksPermit(s.mem, u, s.tables[u].level, q, b)
    decreases s.tables[u].level
  {
    var (s', c) := EnsureTable(s, t, s.tables[t].level, i, flags);
    var level := s.tables[u].level;
    if level >= 2 {
      var l := Loc(u, Idx(q, level));
      assert SlotOk(s.mem, s.tables, s.kernel, u, l.index);
      EnsureFlags(s, t, s.tables[t].level, i, flags, l);
      if At(s.mem, l).frame != 0 {
        EnsurePermits(s, t, i, flags, At(s.mem, l).frame, q, b);
      } else if l == Loc(t, i) {
        EnsureNew(s, t, i, flags);
        BlankPermits(s'.mem, c, level - 1, q, b);
      }
    }
  }

  lemma BlankPermits(m: Mem, t: nat, level: nat, p: Page, b: nat)
    requires Blank(m, t, level)
    ensures LinksPermit(m, t, level, p, b)
  {
  }

  lemma {:induction false} MapPathPermits(s: Space, t: nat, level: nat, p: Page, flags: Flags, u: nat, q: Page, b: nat)
    ensures Walkable(s, t, level, p, flags) && u in s.tables && b in flags ==>
              (LinksPermit(MapPath(s, t, level, p, flags).mem, u, s.tables[u].level, q, b)
               <==> LinksPermit(s.mem, u, s.tables[u].level, q, b))
    decreases level
  {
    if level >= 2 && Walkable(s, t, level, p, flags) && u in s.tables && b in flags {
      var (s1, c) := EnsureTable(s, t, level, Idx(p, level), flags);
      WalkStep(s, t, level, p, flags, s1, c);
      EnsureStep(s, t, p, flags);
      EnsurePermits(s, t, Idx(p, level), flags, u, q, b);
      MapPathPermits(s1, c, level - 1, p, flags, u, q, b);
    }
  }

  lemma {:induction false} LeafPermits(m: Mem, T: Tables, k: nat, l: Loc, e: Entry, t: nat, q: Page, b: nat)
    requires Tree(m, T, k) && (l.frame in T ==> T[l.frame].level == 1) && t in T
    ensures LinksPermit(m[l := e], t, T[t].level, q, b) <==> LinksPermit(m, t, T[t].level, q, b)
    decreases T[t].level
  {
    if T[t].level >= 2 {
      assert SlotOk(m, T, k, t, Idx(q, T[t].level));
      var c := At(m, Loc(t, Idx(q, T[t].level))).frame;
      if c != 0 {
        LeafPermits(m, T, k, l, e, c, q, b);
      }
    }
  }

  /** map with a bit among its flags leaves what the links permit as it is, for every page of every
      space. */
  lemma MapLinksPermit(s: Space, r: nat, p: Page, e: Entry, s': Space, u: nat, q: Page, b: nat)
    requires MapReady(s, r, p, e.flags) && s' == Map(s, r, p, e) && IsRoot(s, u) && b in e.flags
    ensures LinksPermit(s'.mem, u, 4, q, b) <==> LinksPermit(s.mem, u, 4, q, b)
  {
    var s1 := MapPath(s, r, 4, p, e.flags);
    MapPathPermits(s, r, 4, p, e.flags, u, q, b);
    MapPathKeeps(s, r, 4, p, e.flags);
    MapPathGrows(s, r, 4, p, e.flags);
    MapPathReaches(s, r, 4, p, e.flags);
    LeafLevel(s1.mem, s1.tables, s1.kernel, r, p);
    LeafPermits(s1.mem, s1.tables, s1.kernel, Leaf(s1.mem, r, 4, p).value, e, u, q, b);
  }

  /** A page mapped present gets the right asked for if and only if it was asked for and every
      present link that was already on its way has it. */
  lemma MapPermits(s: Space, r: nat, p: Page, e: Entry, s': Space, b: nat)
    requires MapReady(s, r, p, e.flags) && s' == Map(s, r, p, e) && PRESENT in e.flags
    ensures HwPermits(s'.mem, r, p, b) <==> b in e.flags && LinksPermit(s.mem, r, 4, p, b)
  {
    MapKeeps(s, r, p, e);
    MapView(s, r, p, e, r, p);
    MapHw(s, r, p, e, r, p);
    PermitsLinks(s'.mem, s'.tables, s'.kernel, r, p, b);
    if b in e.flags {
      MapLinksPermit(s, r, p, e, s', r, p, b);
    }
  }

  // ---------- an early mapping restricts a later one ----------

  /** A walk without bit `b` that creates a table leaves a link that does not permit it. */
  ghost predicate Restricts(s: Space, t: nat, level: nat, p: Page, flags: Flags, b: nat) {
    Walkable(s, t, level, p, flags) && PRESENT in flags && b !in flags && Missing(s.mem, t, level, p) > 0 ==>
      !LinksPermit(MapPath(s, t, level, p, flags).mem, t, level, p, b)
  }

  lemma {:induction false} MapPathRestricts(s: Space, t: nat, level: nat, p: Page, flags: Flags, b: nat)
    ensures Restricts(s, t, level, p, flags, b)
    decreases level
  {
    if level >= 2 {
      var below: nat := level - 1;
      var (s1, c) := EnsureTable(s, t, level, Idx(p, level), flags);
      MapPathRestricts(s1, c, below, p, flags, b);
      RestrictsStep(s, t, level, below, p, flags, b, s1, c);
    }
  }

  lemma RestrictsStep(s: Space, t: nat, level: nat, below: nat, p: Page, flags: Flags, b: nat, s1: Space, c: nat)
    requires level >= 2 && below == level - 1 && (s1, c) == EnsureTable(s, t, level, Idx(p, level), flags)
    ensures Restricts(s1, c, below, p, flags, b) ==> Restricts(s, t, level, p, flags, b)
  {
    if Walkable(s, t, level, p, flags) && PRESENT in flags && b !in flags && Missing(s.mem, t, level, p) > 0 {
      var l := Loc(t, Idx(p, level));
      WalkStep(s, t, level, p, flags, s1, c);
      EnsureStep(s, t, p, flags);
      EnsureFlags(s, t, level, Idx(p, level), flags, l);
      MapPathLink(s1, c, level - 1, p, flags, l);
      if At(s.mem, l).frame != 0 {
        EnsureOld(s, t, Idx(p, level), flags);
        MissingSame(s.mem, s1.mem, c, level - 1, p);
      }
    }
  }

  /** If mapping page `p` without a right creates a table, the other pages of its leaf table do not
      get the right either, whatever they are mapped with later. */
  lemma FirstFlagsStay(s: Space, r: nat, p: Page, e: Entry, s1: Space, q: Page, e': Entry, s2: Space, b: nat)
    requires MapReady(s, r, p, e.flags) && s1 == Map(s, r, p, e) && PRESENT in e.flags && b !in e.flags
    requires Missing(s.mem, r, 4, p) > 0 && p.i4 == q.i4 && p.i3 == q.i3 && p.i2 == q.i2
    requires Mappable(s1, q) && HUGE !in e'.flags && PRESENT in e'.flags && s2 == Map(s1, r, q, e')
    ensures HwFrame(s2.mem, r, q) == Some(e'.frame) && !HwPermits(s2.mem, r, q, b)
  {
    var a := MapPath(s, r, 4, p, e.flags);
    MapKeeps(s, r, p, e);
    MapPathRestricts(s, r, 4, p, e.flags, b);
    MapPathKeeps(s, r, 4, p, e.flags);
    MapPathGrows(s, r, 4, p, e.flags);
    MapPathReaches(s, r, 4, p, e.flags);
    LeafLevel(a.mem, a.tables, a.kernel, r, p);
    LeafPermits(a.mem, a.tables, a.kernel, Leaf(a.mem, r, 4, p).value, e, r, p, b);
    SameLinks(s1.mem, r, 4, p, q, b);
    NeighbourNeedsNothing(s, r, p, e, q);
    ReadyWhenComplete(s1, r, q, e'.flags);
    MapPermits(s1, r, q, e', s2, b);
    MapHw(s1, r, q, e', r, q);
  }

  lemma {:induction false} SameLinks(m: Mem, t: nat, level: nat, p: Page, q: Page, b: nat)
    requires level <= 4 && p.i4 == q.i4 && p.i3 == q.i3 && p.i2 == q.i2
    ensures LinksPermit(m, t, level, p, b) <==> LinksPermit(m, t, level, q, b)
    decreases level
  {
    if level >= 2 {
      SameLinks(m, At(m, Loc(t, Idx(p, level))).frame, level - 1, p, q, b);
    }
  }
}
