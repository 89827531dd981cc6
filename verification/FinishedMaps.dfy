/**
 Exactly when map of src/memory/paging.c ends well although it takes uncleared frames: the words it
 overwrites itself may hold anything that is taken for absent, all others have to be clean.
 */
module FinishedMaps {
  import opened Frames
  import opened PageTables
  import opened Mapping

  /** map as it runs: the entry is stored through the pointer the walk arrives at. */
  ghost function MapFrom(s: Space, t: nat, level: nat, p: Page, e: Entry): Space
    decreases level, p
  {
    if level <= 1 then s.(mem := s.mem[Loc(t, p.i1) := e])
    else
      var (s', c) := EnsureTable(s, t, level, Idx(p, level), e.flags);
      MapFrom(s', c, level - 1, p, e)
  }

  /** `s'` is `s1` with the entry stored where the tables below `t` lead. */
  ghost predicate Stored(s1: Space, t: nat, level: nat, p: Page, e: Entry, s': Space) {
    var l := Leaf(s1.mem, t, level, p);
    l.Some? && s' == s1.(mem := s1.mem[l.value := e])
  }

  /** On clean frames the entry ends up where the finished tables lead. */
  ghost predicate StoredAtLeaf(s: Space, t: nat, level: nat, p: Page, e: Entry) {
    Walkable(s, t, level, p, e.flags) ==>
      Stored(MapPath(s, t, level, p, e.flags), t, level, p, e, MapFrom(s, t, level, p, e))
  }

  lemma {:induction false} MapFromIsMap(s: Space, t: nat, level: nat, p: Page, e: Entry)
    requires level >= 1
    ensures StoredAtLeaf(s, t, level, p, e)
    decreases level
  {
    if level >= 2 {
      var below: nat := level - 1;
      var (s1, c) := EnsureTable(s, t, level, Idx(p, level), e.flags);
      MapFromIsMap(s1, c, below, p, e);
      StoredStep(s, t, level, below, p, e, s1, c);
    }
  }

  lemma StoredStep(s: Space, t: nat, level: nat, below: nat, p: Page, e: Entry, s1: Space, c: nat)
    requires level >= 2 && below == level - 1 && (s1, c) == EnsureTable(s, t, level, Idx(p, level), e.flags)
    ensures StoredAtLeaf(s1, c, below, p, e) ==> StoredAtLeaf(s, t, level, p, e)
  {
    if Walkable(s, t, level, p, e.flags) {
      WalkStep(s, t, level, p, e.flags, s1, c);
      EnsureStep(s, t, p, e.flags);
      LinkStays(s1, t, level, c, p, e.flags, MapPath(s1, c, level - 1, p, e.flags));
    }
  }

  lemma LinkStays(s1: Space, t: nat, level: nat, c: nat, p: Page, flags: Flags, a: Space)
    requires level >= 2 && t in s1.tables && s1.tables[t].level == level && c != 0
    requires At(s1.mem, Loc(t, Idx(p, level))).frame == c && a == MapPath(s1, c, level - 1, p, flags)
    ensures Walkable(s1, c, level - 1, p, flags) ==> Leaf(a.mem, t, level, p) == Leaf(a.mem, c, level - 1, p)
  {
    if Walkable(s1, c, level - 1, p, flags) {
      MapPathLink(s1, c, level - 1, p, flags, Loc(t, Idx(p, level)));
      ThroughLink(a.mem, t, level, p, c);
    }
  }

  /** A word of an empty table. */
  predicate CleanWord(e: Entry, level: nat) {
    if level >= 2 then Quiet(e) else e == ZERO
  }

  /** What the new table `c` has to hold: in the word the walk overwrites next anything absent,
      elsewhere nothing. */
  ghost predicate CleanAside(s: Space, c: nat, level: nat, p: Page) {
    && (forall j: Index :: j != Idx(p, level) ==> CleanWord(At(s.mem, Loc(c, j)), level))
    && (level >= 2 ==> Absent(s, At(s.mem, Loc(c, Idx(p, level)))))
  }

  /** Every table created on the way gets a frame, and one that is clean in this sense. */
  ghost predicate EndsWell(s: Space, t: nat, level: nat, p: Page, flags: Flags)
    decreases level, p
  {
    level <= 1 ||
    var (s', c) := EnsureTable(s, t, level, Idx(p, level), flags);
    && c != 0
    && (Absent(s, At(s.mem, Loc(t, Idx(p, level)))) ==> CleanAside(s', c, level - 1, p))
    && EndsWell(s', c, level - 1, p, flags)
  }

  // ---------- clean enough is enough ----------

  /** The memory with the words the walk overwrites cleared beforehand in the frames of the tables
      missing below level `top`. */
  ghost function Wipe(m: Mem, pmm: Pmm, top: nat, p: Page): Mem
    decreases top
  {
    if top <= 1 then m
    else
      var (c, pmm') := Alloc(pmm, 1);
      Wipe(m[Loc(c, Idx(p, top - 1)) := ZERO], pmm', top - 1, p)
  }

  /** Wiping touches free frames only, so it commutes with writes elsewhere. */
  lemma {:induction false} WipeCommutes(m: Mem, pmm: Pmm, top: nat, p: Page, l: Loc, e: Entry)
    requires Ready(pmm) && l.frame in pmm.reserved && l.frame != 0 && top <= |FreeSet(pmm)| + 1
    ensures Wipe(m[l := e], pmm, top, p) == Wipe(m, pmm, top, p)[l := e]
    ensures At(Wipe(m, pmm, top, p), l) == At(m, l)
    decreases top
  {
    if top > 1 {
      var (c, pmm') := Alloc(pmm, 1);
      TakesOne(pmm);
      var w := Loc(c, Idx(p, top - 1));
      StoresCommute(m, l, e, w);
      WipeCommutes(m[w := ZERO], pmm', top - 1, p, l, e);
    }
  }

  lemma StoresCommute(m: Mem, l: Loc, e: Entry, w: Loc)
    requires l != w
    ensures m[l := e][w := ZERO] == m[w := ZERO][l := e] && At(m[w := ZERO], l) == At(m, l)
  {
  }

  lemma TakesOne(pmm: Pmm)
    requires Ready(pmm) && FreeSet(pmm) != {}
    ensures var (c, p) := Alloc(pmm, 1);
      && Ready(p) && p.frames == pmm.frames && c in FreeSet(pmm) && c != 0 && c in p.reserved
      && p.reserved == pmm.reserved + {c} && FreeSet(p) == FreeSet(pmm) - {c} && |FreeSet(p)| == |FreeSet(pmm)| - 1
  {
    AllocOne(pmm);
    var f :| f in FreeSet(pmm);
    assert FreeSet(Alloc(pmm, 1).1) == FreeSet(pmm) - {Alloc(pmm, 1).0};
  }

  /** The first of the frames: its overwritten word is cleared, the others are as they were. */
  lemma WipeFirst(m: Mem, pmm: Pmm, top: nat, p: Page, j: Index)
    requires Ready(pmm) && 1 < top <= |FreeSet(pmm)| + 1
    ensures var c := Alloc(pmm, 1).0;
      At(Wipe(m, pmm, top, p), Loc(c, j)) == if j == Idx(p, top - 1) then ZERO else At(m, Loc(c, j))
  {
    var (c, pmm') := Alloc(pmm, 1);
    TakesOne(pmm);
    var w := m[Loc(c, Idx(p, top - 1)) := ZERO];
    WipeCommutes(w, pmm', top - 1, p, Loc(c, j), ZERO);
  }

  /** `s` with the frames of the tables missing below level `top` wiped. */
  ghost function Wiped(s: Space, top: nat, p: Page): Space {
    s.(mem := Wipe(s.mem, s.pmm, top, p))
  }

  /** Writing a reserved word before or after wiping. */
  lemma WipedStore(s: Space, top: nat, p: Page, l: Loc, e: Entry)
    requires Ready(s.pmm) && l.frame in s.pmm.reserved && l.frame != 0 && top <= |FreeSet(s.pmm)| + 1
    ensures Wiped(s.(mem := s.mem[l := e]), top, p) == Wiped(s, top, p).(mem := Wiped(s, top, p).mem[l := e])
    ensures At(Wiped(s, top, p).mem, l) == At(s.mem, l)
  {
    WipeCommutes(s.mem, s.pmm, top, p, l, e);
  }

  /** A table just created, about to be walked on: in a reserved frame, its own word cleared. */
  ghost function Cleared(s: Space, c: nat, level: nat, p: Page): Space {
    s.(mem := s.mem[Loc(c, Idx(p, level)) := ZERO])
  }

  ghost predicate Fresh(s: Space, c: nat, level: nat, p: Page, flags: Flags) {
    && Ready(s.pmm) && c in s.pmm.reserved && c != 0 && level >= 1
    && CleanAside(s, c, level, p) && EndsWell(s, c, level, p, flags)
  }

  /** The next step below a fresh table. */
  lemma FreshStep(s: Space, c: nat, level: nat, below: nat, p: Page, flags: Flags, s2: Space, c2: nat)
    requires Fresh(s, c, level, p, flags) && level >= 2 && below == level - 1
    requires (s2, c2) == EnsureTable(s, c, level, Idx(p, level), flags)
    ensures FreeSet(s.pmm) != {} && c2 == Alloc(s.pmm, 1).0 && s2.pmm == Alloc(s.pmm, 1).1 && c2 != c
    ensures s2.mem == s.mem[Loc(c, Idx(p, level)) := Entry(c2, flags)]
    ensures Fresh(s2, c2, below, p, flags) && |FreeSet(s2.pmm)| == |FreeSet(s.pmm)| - 1
  {
    AllocOne(s.pmm);
    assert c2 in FreeSet(s.pmm);
    TakesOne(s.pmm);
  }

  /** A fresh chain has its frames. */
  lemma {:induction false} FreshFrames(s: Space, c: nat, level: nat, p: Page, flags: Flags)
    ensures Fresh(s, c, level, p, flags) ==> level - 1 <= |FreeSet(s.pmm)|
    decreases level
  {
    if level >= 2 && Fresh(s, c, level, p, flags) {
      var (s2, c2) := EnsureTable(s, c, level, Idx(p, level), flags);
      FreshStep(s, c, level, level - 1, p, flags, s2, c2);
      FreshFrames(s2, c2, level - 1, p, flags);
    }
  }

  /** From `z` the walk ends as it does from `s`, and meets clean frames only. */
  ghost predicate EndsAlike(s: Space, z: Space, t: nat, level: nat, p: Page, e: Entry) {
    MapFrom(z, t, level, p, e) == MapFrom(s, t, level, p, e) && CleanPath(z, t, level, p, e.flags)
  }

  lemma AlikeStep(s: Space, z: Space, t: nat, level: nat, p: Page, e: Entry, s1: Space, z1: Space, c: nat)
    requires level >= 2 && EnsureTable(s, t, level, Idx(p, level), e.flags) == (s1, c)
    requires EnsureTable(z, t, level, Idx(p, level), e.flags) == (z1, c)
    requires At(z.mem, Loc(t, Idx(p, level))).frame == 0 ==> NextBlank(z, level - 1)
    ensures EndsAlike(s1, z1, c, level - 1, p, e) ==> EndsAlike(s, z, t, level, p, e)
  {
  }

  /** Below a fresh table wiping makes no difference to a step. */
  lemma WipedStep(s: Space, c: nat, level: nat, p: Page, flags: Flags, s2: Space, c2: nat, z: Space)
    requires Fresh(s, c, level, p, flags) && level >= 2 && (s2, c2) == EnsureTable(s, c, level, Idx(p, level), flags)
    requires z == Wiped(Cleared(s, c, level, p), level, p)
    ensures EnsureTable(z, c, level, Idx(p, level), flags) == (Wiped(Cleared(s2, c2, level - 1, p), level - 1, p), c2)
    ensures At(z.mem, Loc(c, Idx(p, level))) == ZERO
  {
    FreshStep(s, c, level, level - 1, p, flags, s2, c2);
    WipedMem(s, c, level, p, flags, s2, c2, z);
  }

  lemma WipedMem(s: Space, c: nat, level: nat, p: Page, flags: Flags, s2: Space, c2: nat, z: Space)
    requires Fresh(s, c, level, p, flags) && level >= 2 && (s2, c2) == EnsureTable(s, c, level, Idx(p, level), flags)
    requires z == Wiped(Cleared(s, c, level, p), level, p)
    ensures Wiped(Cleared(s2, c2, level - 1, p), level - 1, p).mem == z.mem[Loc(c, Idx(p, level)) := Entry(c2, flags)]
    ensures At(z.mem, Loc(c, Idx(p, level))) == ZERO
  {
    FreshStep(s, c, level, level - 1, p, flags, s2, c2);
    FreshFrames(s, c, level, p, flags);
    WipeLinked(s.mem, s.pmm, level, p, Loc(c, Idx(p, level)), Entry(c2, flags), c2, s2.pmm);
  }

  /** Wiping after the link is stored, or linking after wiping. */
  lemma WipeLinked(m: Mem, pmm: Pmm, top: nat, p: Page, l: Loc, link: Entry, c2: nat, pmm2: Pmm)
    requires Ready(pmm) && l.frame in pmm.reserved && l.frame != 0 && 1 < top <= |FreeSet(pmm)| + 1
    requires (c2, pmm2) == Alloc(pmm, 1)
    ensures Wipe(m[l := link][Loc(c2, Idx(p, top - 1)) := ZERO], pmm2, top - 1, p)
            == Wipe(m[l := ZERO], pmm, top, p)[l := link]
    ensures At(Wipe(m[l := ZERO], pmm, top, p), l) == ZERO
  {
    WipeCommutes(m[l := ZERO], pmm, top, p, l, link);
    assert m[l := ZERO][l := link] == m[l := link];
  }

  /** The frame taken next is an empty table after wiping. */
  lemma WipedBlank(s: Space, c: nat, level: nat, p: Page, flags: Flags, s2: Space, c2: nat, z: Space)
    requires Fresh(s, c, level, p, flags) && level >= 2 && (s2, c2) == EnsureTable(s, c, level, Idx(p, level), flags)
    requires z == Wiped(Cleared(s, c, level, p), level, p)
    ensures NextBlank(z, level - 1)
  {
    var a := Cleared(s, c, level, p);
    FreshStep(s, c, level, level - 1, p, flags, s2, c2);
    FreshFrames(s, c, level, p, flags);
    WipedPmm(a, level, p);
    forall j: Index ensures At(z.mem, Loc(c2, j)) == if j == Idx(p, level - 1) then ZERO else At(s2.mem, Loc(c2, j)) {
      WipeFirst(a.mem, a.pmm, level, p, j);
    }
    BlankAside(z.mem, s2, c2, level - 1, p);
  }

  lemma WipedPmm(s: Space, top: nat, p: Page)
    ensures Wiped(s, top, p).pmm == s.pmm
  {
  }

  lemma BlankAside(m: Mem, s: Space, c: nat, level: nat, p: Page)
    requires CleanAside(s, c, level, p)
    requires forall j: Index :: At(m, Loc(c, j)) == if j == Idx(p, level) then ZERO else At(s.mem, Loc(c, j))
    ensures Blank(m, c, level)
  {
  }

  /** Below a fresh table wiping makes no difference, and leaves clean frames only. */
  ghost predicate WipeHarmless(s: Space, c: nat, level: nat, p: Page, e: Entry) {
    Fresh(s, c, level, p, e.flags) ==> EndsAlike(s, Wiped(Cleared(s, c, level, p), level, p), c, level, p, e)
  }

  lemma {:induction false} WipedChain(s: Space, c: nat, level: nat, p: Page, e: Entry)
    requires level >= 1
    ensures WipeHarmless(s, c, level, p, e)
    decreases level
  {
    if level == 1 {
      WipedEnd(s, c, level, p, e, Wiped(Cleared(s, c, level, p), level, p));
    } else {
      var below: nat := level - 1;
      var (s2, c2) := EnsureTable(s, c, level, Idx(p, level), e.flags);
      WipedChain(s2, c2, below, p, e);
      WipedOn(s, c, level, below, p, e, s2, c2);
    }
  }

  lemma WipedOn(s: Space, c: nat, level: nat, below: nat, p: Page, e: Entry, s2: Space, c2: nat)
    requires level >= 2 && below == level - 1 && (s2, c2) == EnsureTable(s, c, level, Idx(p, level), e.flags)
    ensures WipeHarmless(s2, c2, below, p, e) ==> WipeHarmless(s, c, level, p, e)
  {
    FreshOn(s, c, level, below, p, e.flags, s2, c2);
    WipedUp(s, c, level, below, p, e, s2, c2);
  }

  lemma FreshOn(s: Space, c: nat, level: nat, below: nat, p: Page, flags: Flags, s2: Space, c2: nat)
    requires level >= 2 && below == level - 1 && (s2, c2) == EnsureTable(s, c, level, Idx(p, level), flags)
    ensures Fresh(s, c, level, p, flags) ==> Fresh(s2, c2, below, p, flags)
  {
    if Fresh(s, c, level, p, flags) {
      FreshStep(s, c, level, below, p, flags, s2, c2);
    }
  }

  lemma WipedEnd(s: Space, c: nat, level: nat, p: Page, e: Entry, z: Space)
    requires level == 1 && z == Wiped(Cleared(s, c, level, p), level, p)
    ensures EndsAlike(s, z, c, level, p, e)
  {
    var l := Loc(c, Idx(p, level));
    assert s.mem[l := ZERO][l := e] == s.mem[l := e];
  }

  lemma WipedUp(s: Space, c: nat, level: nat, below: nat, p: Page, e: Entry, s2: Space, c2: nat)
    requires level >= 2 && below == level - 1 && (s2, c2) == EnsureTable(s, c, level, Idx(p, level), e.flags)
    ensures Fresh(s, c, level, p, e.flags)
            && EndsAlike(s2, Wiped(Cleared(s2, c2, below, p), below, p), c2, below, p, e) ==>
              EndsAlike(s, Wiped(Cleared(s, c, level, p), level, p), c, level, p, e)
  {
    if Fresh(s, c, level, p, e.flags) {
      var z := Wiped(Cleared(s, c, level, p), level, p);
      WipedStep(s, c, level, p, e.flags, s2, c2, z);
      WipedBlank(s, c, level, p, e.flags, s2, c2, z);
      AlikeStep(s, z, c, level, p, e, s2, Wiped(Cleared(s2, c2, level - 1, p), level - 1, p), c2);
    }
  }

  /** A missing table: from here on the chain is fresh. */
  lemma NewIsFresh(s: Space, t: nat, level: nat, p: Page, flags: Flags, s1: Space, c: nat)
    requires Inv(s) && t in s.tables && s.tables[t].level == level >= 2
    requires At(s.mem, Loc(t, Idx(p, level))).frame == 0 && EndsWell(s, t, level, p, flags)
    requires (s1, c) == EnsureTable(s, t, level, Idx(p, level), flags)
    ensures FreeSet(s.pmm) != {} && c == Alloc(s.pmm, 1).0 && s1.pmm == Alloc(s.pmm, 1).1 && c != t
    ensures s1.mem == s.mem[Loc(t, Idx(p, level)) := Entry(c, flags)]
    ensures Fresh(s1, c, level - 1, p, flags) && level - 1 <= |FreeSet(s.pmm)|
  {
    EndsWellBelow(s, t, level, p, flags, s1, c);
    NewTaken(s, t, level, Idx(p, level), flags, s1, c);
    FreshFrames(s1, c, level - 1, p, flags);
  }

  lemma EndsWellBelow(s: Space, t: nat, level: nat, p: Page, flags: Flags, s1: Space, c: nat)
    requires EndsWell(s, t, level, p, flags) && level >= 2 && At(s.mem, Loc(t, Idx(p, level))).frame == 0
    requires (s1, c) == EnsureTable(s, t, level, Idx(p, level), flags)
    ensures c != 0 && CleanAside(s1, c, level - 1, p) && EndsWell(s1, c, level - 1, p, flags)
  {
  }

  lemma NewTaken(s: Space, t: nat, level: nat, i: Index, flags: Flags, s1: Space, c: nat)
    requires Inv(s) && t in s.tables && level >= 2 && At(s.mem, Loc(t, i)).frame == 0 && c != 0
    requires (s1, c) == EnsureTable(s, t, level, i, flags)
    ensures FreeSet(s.pmm) != {} && c == Alloc(s.pmm, 1).0 && s1.pmm == Alloc(s.pmm, 1).1 && c != t
    ensures Ready(s1.pmm) && c in s1.pmm.reserved && |FreeSet(s1.pmm)| == |FreeSet(s.pmm)| - 1
    ensures s1.mem == s.mem[Loc(t, i) := Entry(c, flags)]
  {
    AllocOne(s.pmm);
    assert c in FreeSet(s.pmm);
    TakesOne(s.pmm);
  }

  lemma WipedNew(s: Space, t: nat, level: nat, p: Page, e: Entry, s1: Space, c: nat, z: Space)
    requires Inv(s) && t in s.tables && s.tables[t].level == level >= 2
    requires At(s.mem, Loc(t, Idx(p, level))).frame == 0 && EndsWell(s, t, level, p, e.flags)
    requires (s1, c) == EnsureTable(s, t, level, Idx(p, level), e.flags) && z == Wiped(s, level, p)
    ensures EndsAlike(s, z, t, level, p, e)
    ensures level - 1 <= |FreeSet(s.pmm)| && Missing(z.mem, t, level, p) == level - 1
  {
    var z1 := Wiped(Cleared(s1, c, level - 1, p), level - 1, p);
    NewIsFresh(s, t, level, p, e.flags, s1, c);
    WipedLink(s, t, level, p, e.flags, s1, c, z, z1);
    WipedNext(s, t, level, p, e.flags, s1, c, z);
    WipedChain(s1, c, level - 1, p, e);
    AlikeStep(s, z, t, level, p, e, s1, z1, c);
  }

  lemma WipedLink(s: Space, t: nat, level: nat, p: Page, flags: Flags, s1: Space, c: nat, z: Space, z1: Space)
    requires Inv(s) && t in s.tables && s.tables[t].level == level >= 2
    requires At(s.mem, Loc(t, Idx(p, level))).frame == 0 && EndsWell(s, t, level, p, flags)
    requires (s1, c) == EnsureTable(s, t, level, Idx(p, level), flags) && z == Wiped(s, level, p)
    requires z1 == Wiped(Cleared(s1, c, level - 1, p), level - 1, p)
    ensures EnsureTable(z, t, level, Idx(p, level), flags) == (z1, c)
    ensures At(z.mem, Loc(t, Idx(p, level))) == At(s.mem, Loc(t, Idx(p, level)))
  {
    NewIsFresh(s, t, level, p, flags, s1, c);
    WipedStore(s, level, p, Loc(t, Idx(p, level)), Entry(c, flags));
  }

  lemma WipedNext(s: Space, t: nat, level: nat, p: Page, flags: Flags, s1: Space, c: nat, z: Space)
    requires Inv(s) && t in s.tables && s.tables[t].level == level >= 2
    requires At(s.mem, Loc(t, Idx(p, level))).frame == 0 && EndsWell(s, t, level, p, flags)
    requires (s1, c) == EnsureTable(s, t, level, Idx(p, level), flags) && z == Wiped(s, level, p)
    ensures NextBlank(z, level - 1)
  {
    NewIsFresh(s, t, level, p, flags, s1, c);
    forall j: Index ensures At(z.mem, Loc(c, j)) == if j == Idx(p, level - 1) then ZERO else At(s1.mem, Loc(c, j)) {
      WipeFirst(s.mem, s.pmm, level, p, j);
    }
    BlankAside(z.mem, s1, c, level - 1, p);
  }

  lemma WipedOld(s: Space, t: nat, level: nat, p: Page, flags: Flags, top: nat, s1: Space, c: nat, z: Space)
    requires Inv(s) && t in s.tables && s.tables[t].level == level >= 2 && HUGE !in flags
    requires At(s.mem, Loc(t, Idx(p, level))).frame != 0 && top <= |FreeSet(s.pmm)| + 1
    requires (s1, c) == EnsureTable(s, t, level, Idx(p, level), flags) && z == Wiped(s, top, p)
    ensures EnsureTable(z, t, level, Idx(p, level), flags) == (Wiped(s1, top, p), c)
    ensures At(z.mem, Loc(t, Idx(p, level))) == At(s.mem, Loc(t, Idx(p, level))) && c != 0
    ensures Missing(z.mem, t, level, p) == Missing(Wiped(s1, top, p).mem, c, level - 1, p)
  {
    var l := Loc(t, Idx(p, level));
    AbsentIsNull(s, t, Idx(p, level));
    WipedStore(s, top, p, l, s1.mem[l]);
    if Present(At(s.mem, l)) {
      assert s1 == s;
    } else {
      assert s1.mem == s.mem[l := s1.mem[l]];
    }
    assert SameFrames(z.mem, Wiped(s1, top, p).mem);
    MissingSame(z.mem, Wiped(s1, top, p).mem, c, level - 1, p);
  }

  /** A walk about to start at table `t` of a well-formed state, with the tables below level `top` missing. */
  ghost predicate Starts(s: Space, t: nat, level: nat, p: Page, flags: Flags, top: nat) {
    && Inv(s) && t in s.tables && s.tables[t].level == level && HUGE !in flags
    && EndsWell(s, t, level, p, flags) && top == Missing(s.mem, t, level, p) + 1
  }

  lemma StartsBelow(s: Space, t: nat, level: nat, p: Page, flags: Flags, top: nat, s1: Space, c: nat)
    requires Starts(s, t, level, p, flags, top) && level >= 2 && At(s.mem, Loc(t, Idx(p, level))).frame != 0
    requires (s1, c) == EnsureTable(s, t, level, Idx(p, level), flags)
    ensures Starts(s1, c, level - 1, p, flags, top) && s1.pmm == s.pmm
  {
    EnsureOld(s, t, Idx(p, level), flags);
    MissingSame(s.mem, s1.mem, c, level - 1, p);
  }

  /** The walk from `z` ends like the one from `s`, and there are frames for the tables missing below
      level `top`. */
  ghost predicate WalksAlike(s: Space, z: Space, t: nat, level: nat, p: Page, e: Entry, top: nat) {
    EndsAlike(s, z, t, level, p, e) && top <= |FreeSet(s.pmm)| + 1 && top == Missing(z.mem, t, level, p) + 1
  }

  /** The whole walk: existing links as they are, then a fresh chain. */
  lemma {:induction false} WipedWalk(s: Space, t: nat, level: nat, p: Page, e: Entry, top: nat, z: Space)
    requires z == Wiped(s, top, p)
    ensures Starts(s, t, level, p, e.flags, top) ==> WalksAlike(s, z, t, level, p, e, top)
    decreases level
  {
    if level <= 1 {
      WalkedLeaf(s, t, level, p, e, top, z);
    } else {
      var below: nat := level - 1;
      var (s1, c) := EnsureTable(s, t, level, Idx(p, level), e.flags);
      var z1 := Wiped(s1, top, p);
      WipedWalk(s1, c, below, p, e, top, z1);
      WalkedNew(s, t, level, p, e, top, s1, c, z);
      WalkedOld(s, t, level, below, p, e, top, s1, c, z, z1);
    }
  }

  lemma WalkedLeaf(s: Space, t: nat, level: nat, p: Page, e: Entry, top: nat, z: Space)
    requires level <= 1 && z == Wiped(s, top, p)
    ensures Starts(s, t, level, p, e.flags, top) ==> WalksAlike(s, z, t, level, p, e, top)
  {
  }

  lemma WalkedNew(s: Space, t: nat, level: nat, p: Page, e: Entry, top: nat, s1: Space, c: nat, z: Space)
    requires level >= 2 && (s1, c) == EnsureTable(s, t, level, Idx(p, level), e.flags) && z == Wiped(s, top, p)
    ensures Starts(s, t, level, p, e.flags, top) && At(s.mem, Loc(t, Idx(p, level))).frame == 0 ==>
              WalksAlike(s, z, t, level, p, e, top)
  {
    if Starts(s, t, level, p, e.flags, top) && At(s.mem, Loc(t, Idx(p, level))).frame == 0 {
      WipedNew(s, t, level, p, e, s1, c, z);
    }
  }

  lemma WalkedOld(s: Space, t: nat, level: nat, below: nat, p: Page, e: Entry, top: nat, s1: Space, c: nat,
                  z: Space, z1: Space)
    requires level >= 2 && below == level - 1 && (s1, c) == EnsureTable(s, t, level, Idx(p, level), e.flags)
    requires z == Wiped(s, top, p) && z1 == Wiped(s1, top, p)
    ensures Starts(s, t, level, p, e.flags, top) && At(s.mem, Loc(t, Idx(p, level))).frame != 0
            && (Starts(s1, c, below, p, e.flags, top) ==> WalksAlike(s1, z1, c, below, p, e, top)) ==>
              WalksAlike(s, z, t, level, p, e, top)
  {
    if Starts(s, t, level, p, e.flags, top) && At(s.mem, Loc(t, Idx(p, level))).frame != 0 {
      StartsBelow(s, t, level, p, e.flags, top, s1, c);
      if WalksAlike(s1, z1, c, below, p, e, top) {
        WipedOld(s, t, level, p, e.flags, top, s1, c, z);
        AlikeStep(s, z, t, level, p, e, s1, z1, c);
      }
    }
  }

  // ---------- from the wiped state back to the real one ----------

  lemma WipedTables(s: Space, top: nat, p: Page, l: Loc)
    requires Inv(s) && top <= |FreeSet(s.pmm)| + 1 && l.frame in s.tables
    ensures At(Wiped(s, top, p).mem, l) == At(s.mem, l)
  {
    WipeCommutes(s.mem, s.pmm, top, p, l, ZERO);
  }

  /** What map has to achieve. */
  ghost predicate Mapped(s: Space, r: nat, p: Page, e: Entry, s': Space) {
    Inv(s') && Remaps(s, r, p, e, s')
  }

  lemma MappedBack(s: Space, z: Space, r: nat, p: Page, e: Entry, s': Space)
    requires Inv(s) && z == s.(mem := z.mem) && forall l: Loc :: l.frame in s.tables ==> At(z.mem, l) == At(s.mem, l)
    requires Mapped(z, r, p, e, s')
    ensures Mapped(s, r, p, e, s')
  {
    forall u: nat | IsRoot(s, u) ensures IsRoot(z, u) {
    }
    forall u: nat, q: Page | IsRoot(s, u)
      ensures LeafEntry(s'.mem, u, 4, q) == if SamePage(r, p, u, q) then e else LeafEntry(s.mem, u, 4, q)
    {
      SameOnTables(s.mem, z.mem, s.tables, s.kernel, u, q);
      assert IsRoot(z, u);
    }
  }

  lemma MappedFromClean(z: Space, r: nat, p: Page, e: Entry)
    requires MapReady(z, r, p, e.flags)
    ensures Mapped(z, r, p, e, MapFrom(z, r, 4, p, e))
  {
    MapFromIsMap(z, r, 4, p, e);
    MapKeeps(z, r, p, e);
    MapRemaps(z, r, p, e, Map(z, r, p, e));
  }

  /** Clean enough is enough. */
  lemma EndsWellMaps(s: Space, r: nat, p: Page, e: Entry)
    requires Inv(s) && IsRoot(s, r) && Mappable(s, p) && HUGE !in e.flags && EndsWell(s, r, 4, p, e.flags)
    ensures Mapped(s, r, p, e, MapFrom(s, r, 4, p, e))
  {
    var top := Missing(s.mem, r, 4, p) + 1;
    var z := Wiped(s, top, p);
    WipedWalk(s, r, 4, p, e, top, z);
    forall l: Loc | l.frame in s.tables ensures At(z.mem, l) == At(s.mem, l) {
      WipedTables(s, top, p, l);
    }
    SameInv(s, z);
    assert forall f: nat :: Pinned(z, f) <==> Pinned(s, f);
    MappedFromClean(z, r, p, e);
    MappedBack(s, z, r, p, e, MapFrom(s, r, 4, p, e));
  }

  // ---------- and nothing less is ----------

  /** Node `x` of `s` is in `s'` as it was unless its frame was free, and if it is new it is below
      the given level. */
  ghost predicate NodeSame(s: Space, s': Space, x: nat, level: nat) {
    && s'.kernel == s.kernel
    && (x != 0 && !IsFree(s, x) ==>
          (x in s'.tables <==> x in s.tables) && (x in s.tables ==> s'.tables[x] == s.tables[x]))
    && (x in s'.tables ==> (x in s.tables && s'.tables[x] == s.tables[x]) || s'.tables[x].level < level)
  }

  lemma EnsureNode(s: Space, t: nat, level: nat, i: Index, flags: Flags, x: nat)
    requires Ready(s.pmm) && level >= 2
    ensures var s1 := EnsureTable(s, t, level, i, flags).0;
      Ready(s1.pmm) && (x != 0 && !IsFree(s, x) ==> !IsFree(s1, x)) && NodeSame(s, s1, x, level)
  {
    AllocOne(s.pmm);
  }

  /** Whatever a walk comes across, it replaces no node but those of free frames, and the nodes it
      adds are below its own level. */
  lemma {:induction false} NodeKept(s: Space, t: nat, level: nat, p: Page, e: Entry, x: nat)
    ensures Ready(s.pmm) ==> NodeSame(s, MapFrom(s, t, level, p, e), x, level)
    decreases level
  {
    if level >= 2 && Ready(s.pmm) {
      var (s1, c) := EnsureTable(s, t, level, Idx(p, level), e.flags);
      EnsureNode(s, t, level, Idx(p, level), e.flags, x);
      NodeKept(s1, c, level - 1, p, e, x);
      NodeSameTwice(s, s1, MapFrom(s1, c, level - 1, p, e), x, level - 1, level);
    }
  }

  lemma NodeSameTwice(s: Space, s1: Space, s2: Space, x: nat, below: nat, level: nat)
    requires x != 0 && !IsFree(s, x) ==> !IsFree(s1, x)
    requires below <= level && NodeSame(s, s1, x, level) && NodeSame(s1, s2, x, below)
    ensures NodeSame(s, s2, x, level)
  {
  }

  lemma {:induction false} NullNodeStays(s: Space, t: nat, level: nat, p: Page, e: Entry)
    requires 0 in s.tables
    ensures 0 in MapFrom(s, t, level, p, e).tables
    decreases level
  {
    if level >= 2 {
      var (s1, c) := EnsureTable(s, t, level, Idx(p, level), e.flags);
      NullNodeStays(s1, c, level - 1, p, e);
    }
  }

  /** Word `l` keeps its frame in the walk, or has the entry itself stored over it. */
  ghost predicate LinkHeld(s: Space, t: nat, level: nat, p: Page, e: Entry, l: Loc) {
    var w := At(MapFrom(s, t, level, p, e).mem, l);
    w.frame == At(s.mem, l).frame || w == e
  }

  /** A link that is not absent does. */
  lemma {:induction false} LinkKept(s: Space, t: nat, level: nat, p: Page, e: Entry, l: Loc)
    ensures Ready(s.pmm) && !Absent(s, At(s.mem, l)) ==> LinkHeld(s, t, level, p, e, l)
    decreases level
  {
    if level >= 2 {
      var (s1, c) := EnsureTable(s, t, level, Idx(p, level), e.flags);
      LinkKept(s1, c, level - 1, p, e, l);
      LinkKeptStep(s, t, level, p, e, l);
    }
  }

  lemma LinkKeptStep(s: Space, t: nat, level: nat, p: Page, e: Entry, l: Loc)
    requires level >= 2
    ensures var (s1, c) := EnsureTable(s, t, level, Idx(p, level), e.flags);
      (Ready(s1.pmm) && !Absent(s1, At(s1.mem, l)) ==> LinkHeld(s1, c, level - 1, p, e, l)) ==>
        (Ready(s.pmm) && !Absent(s, At(s.mem, l)) ==> LinkHeld(s, t, level, p, e, l))
  {
    if Ready(s.pmm) {
      AllocOne(s.pmm);
    }
  }

  /** What is left of the invariant below a dirty table: nodes are reserved, and hang off nodes. */
  ghost predicate Loose(s: Space) {
    && Ready(s.pmm) && 0 !in s.tables && s.kernel in s.tables
    && (forall x :: x in s.tables ==> x in s.pmm.reserved)
    && (forall x :: x in s.tables && s.tables[x].level < 4 ==> s.tables[x].up.frame in s.tables)
  }

  /** The pages agree on the indices of the lowest `level` levels. */
  predicate SameBelow(p: Page, q: Page, level: nat) {
    && (level >= 1 ==> p.i1 == q.i1) && (level >= 2 ==> p.i2 == q.i2)
    && (level >= 3 ==> p.i3 == q.i3) && (level >= 4 ==> p.i4 == q.i4)
  }

  function WithIdx(q: Page, level: nat, i: Index): Page {
    if level == 4 then q.(i4 := i) else if level == 3 then q.(i3 := i)
    else if level == 2 then q.(i2 := i) else q.(i1 := i)
  }

  lemma {:induction false} LeafEntryBelow(m: Mem, t: nat, level: nat, p: Page, q: Page)
    requires SameBelow(p, q, level) && 1 <= level <= 4
    ensures LeafEntry(m, t, level, p) == LeafEntry(m, t, level, q)
    decreases level
  {
    if level >= 2 {
      LeafEntryBelow(m, At(m, Loc(t, Idx(p, level))).frame, level - 1, p, q);
    }
  }

  /** Below table `c` page `p` has the entry and no other page has any. */
  ghost predicate ShowsOnly(m: Mem, c: nat, level: nat, p: Page, e: Entry) {
    forall q: Page :: LeafEntry(m, c, level, q) == if SameBelow(p, q, level) then e else ZERO
  }

  /** The walk is at a table `c` just created, and ends in a state `s'` that is as it should be. */
  ghost predicate InChain(s: Space, c: nat, level: nat, p: Page, e: Entry, s': Space) {
    && Loose(s) && c in s.tables && s.tables[c].level == level && 1 <= level <= 3 && e != ZERO
    && (forall x :: x in s.tables && s.tables[x].level < 4 ==> s.tables[x].up.frame != c)
    && s' == MapFrom(s, c, level, p, e) && Inv(s') && ShowsOnly(s'.mem, c, level, p, e)
  }

  /** The word the walk follows next is taken for absent: nothing can be recorded under `c` yet. */
  lemma ChainAbsent(s: Space, c: nat, level: nat, p: Page, e: Entry, s': Space)
    requires InChain(s, c, level, p, e, s') && level >= 2
    ensures Absent(s, At(s.mem, Loc(c, Idx(p, level))))
  {
    var i := Idx(p, level);
    var l := Loc(c, i);
    var y := At(s.mem, l).frame;
    assert LeafEntry(s'.mem, c, level, p) == e;
    if !Absent(s, At(s.mem, l)) {
      var (s1, y') := EnsureTable(s, c, level, i, e.flags);
      assert y' == y && s1.tables == s.tables && s1.pmm == s.pmm;
      LinkKept(s, c, level, p, e, l);
      NodeKept(s, c, level, p, e, c);
      assert SlotOk(s'.mem, s'.tables, s'.kernel, c, i);
      var x := At(s'.mem, l).frame;
      NodeKept(s, c, level, p, e, x);
      NodeKept(s1, y, level - 1, p, e, x);
    }
  }

  /** A table whose slot the finished tree links to it: what shows through the slot shows below. */
  lemma ShowsThrough(m: Mem, t: nat, level: nat, i: Index, c: nat, p: Page, e: Entry)
    requires 2 <= level <= 4 && At(m, Loc(t, i)).frame == c != 0 && i == Idx(p, level)
    requires forall q: Page :: Idx(q, level) == i ==>
               LeafEntry(m, t, level, q) == if SameBelow(p, q, level) then e else ZERO
    ensures ShowsOnly(m, c, level - 1, p, e)
  {
    var below := level - 1;
    forall q: Page ensures LeafEntry(m, c, below, q) == if SameBelow(p, q, below) then e else ZERO {
      var q' := WithIdx(q, level, i);
      assert LeafEntry(m, t, level, q') == LeafEntry(m, c, below, q');
      LeafEntryBelow(m, c, below, q, q');
      assert SameBelow(p, q', level) <==> SameBelow(p, q, below);
    }
  }

  /** In a well-formed end state a node of the walk is linked. */
  lemma NodeLinked(s1: Space, c: nat, level: nat, p: Page, e: Entry, s': Space)
    requires Ready(s1.pmm) && c in s1.tables && s1.tables[c].level < 4 && (c != 0 ==> !IsFree(s1, c))
    requires s' == MapFrom(s1, c, level, p, e) && Inv(s')
    ensures c != 0 && At(s'.mem, s1.tables[c].up).frame == c
  {
    if c == 0 {
      NullNodeStays(s1, c, level, p, e);
    } else {
      NodeKept(s1, c, level, p, e, c);
      assert Linked(s'.mem, s'.tables, c);
    }
  }

  /** The next table of the chain. */
  lemma ChainStep(s: Space, c: nat, level: nat, p: Page, e: Entry, s': Space, s1: Space, c1: nat)
    requires InChain(s, c, level, p, e, s') && level >= 2
    requires (s1, c1) == EnsureTable(s, c, level, Idx(p, level), e.flags)
    ensures IsFree(s, c1) && c1 != 0 && InChain(s1, c1, level - 1, p, e, s')
    ensures s1.mem == s.mem[Loc(c, Idx(p, level)) := Entry(c1, e.flags)]
    ensures s1.tables == s.tables[c1 := Node(level - 1, Loc(c, Idx(p, level)))]
  {
    ChainAbsent(s, c, level, p, e, s');
    AllocOne(s.pmm);
    NodeLinked(s1, c1, level - 1, p, e, s');
    ShowsThrough(s'.mem, c, level, Idx(p, level), c1, p, e);
  }

  /** The rest of the chain writes no reserved word but the one it follows next. */
  lemma {:induction false} ChainSpares(s: Space, c: nat, level: nat, p: Page, e: Entry, s': Space, l: Loc)
    requires l.frame in s.pmm.reserved && l != Loc(c, Idx(p, level))
    ensures InChain(s, c, level, p, e, s') ==> At(s'.mem, l) == At(s.mem, l)
    decreases level
  {
    if level >= 2 && InChain(s, c, level, p, e, s') {
      var (s1, c1) := EnsureTable(s, c, level, Idx(p, level), e.flags);
      ChainStep(s, c, level, p, e, s', s1, c1);
      AllocOne(s.pmm);
      ChainSpares(s1, c1, level - 1, p, e, s', l);
    }
  }

  /** So the other words of `c` are clean. */
  lemma ChainAside(s: Space, c: nat, level: nat, p: Page, e: Entry, s': Space)
    requires InChain(s, c, level, p, e, s')
    ensures CleanAside(s, c, level, p)
  {
    forall j: Index | j != Idx(p, level) ensures CleanWord(At(s.mem, Loc(c, j)), level) {
      ChainSpares(s, c, level, p, e, s', Loc(c, j));
      if level >= 2 {
        ChainQuiet(s, c, level, p, e, s', j);
      } else {
        var q := p.(i1 := j);
        assert LeafEntry(s'.mem, c, 1, q) == ZERO;
      }
    }
    if level >= 2 {
      ChainAbsent(s, c, level, p, e, s');
    }
  }

  lemma ChainQuiet(s: Space, c: nat, level: nat, p: Page, e: Entry, s': Space, j: Index)
    requires InChain(s, c, level, p, e, s') && level >= 2 && j != Idx(p, level)
    ensures Quiet(At(s'.mem, Loc(c, j)))
  {
    var (s1, c1) := EnsureTable(s, c, level, Idx(p, level), e.flags);
    var x := At(s'.mem, Loc(c, j)).frame;
    ChainStep(s, c, level, p, e, s', s1, c1);
    NodeKept(s, c, level, p, e, c);
    NodeKept(s1, c1, level - 1, p, e, x);
    assert SlotOk(s'.mem, s'.tables, s'.kernel, c, j);
  }

  lemma {:induction false} ChainEndsWell(s: Space, c: nat, level: nat, p: Page, e: Entry, s': Space)
    ensures InChain(s, c, level, p, e, s') ==> EndsWell(s, c, level, p, e.flags)
    decreases level
  {
    if level >= 2 && InChain(s, c, level, p, e, s') {
      var (s1, c1) := EnsureTable(s, c, level, Idx(p, level), e.flags);
      ChainStep(s, c, level, p, e, s', s1, c1);
      ChainAside(s1, c1, level - 1, p, e, s');
      ChainEndsWell(s1, c1, level - 1, p, e, s');
    }
  }

  /** The walk is at a table of a well-formed state, and ends in a state `s'` that is as it should
      be below it. */
  ghost predicate InTree(s: Space, t: nat, level: nat, p: Page, e: Entry, s': Space) {
    && Inv(s) && t in s.tables && s.tables[t].level == level && HUGE !in e.flags && e != ZERO
    && s' == MapFrom(s, t, level, p, e) && Inv(s')
    && forall q: Page ::
         LeafEntry(s'.mem, t, level, q) == if SameBelow(p, q, level) then e else LeafEntry(s.mem, t, level, q)
  }

  /** An existing link of the path is in the finished tree. */
  lemma OldLinked(s: Space, t: nat, level: nat, p: Page, e: Entry, s': Space, c: nat)
    requires InTree(s, t, level, p, e, s') && level >= 2 && c == At(s.mem, Loc(t, Idx(p, level))).frame != 0
    ensures At(s'.mem, Loc(t, Idx(p, level))).frame == c
  {
    assert SlotOk(s.mem, s.tables, s.kernel, t, Idx(p, level));
    NodeKept(s, t, level, p, e, c);
    NodeKept(s, t, level, p, e, t);
    assert Linked(s'.mem, s'.tables, c);
  }

  /** What creating a table does to the state. */
  lemma NewNode(s: Space, t: nat, level: nat, i: Index, flags: Flags, s1: Space, c: nat)
    requires Inv(s) && t in s.tables && s.tables[t].level == level >= 2 && At(s.mem, Loc(t, i)).frame == 0
    requires (s1, c) == EnsureTable(s, t, level, i, flags)
    ensures Ready(s1.pmm) && c in s1.tables && s1.kernel == s.kernel
    ensures c != 0 ==> IsFree(s, c) && c in s1.pmm.reserved
    ensures s1.pmm.reserved == s.pmm.reserved + if c == 0 then {} else {c}
    ensures s1.tables == s.tables[c := Node(level - 1, Loc(t, i))] && s1.pmm.frames == s.pmm.frames
  {
    AllocOne(s.pmm);
    assert SlotOk(s.mem, s.tables, s.kernel, t, i);
  }

  lemma NewLinked(s: Space, t: nat, level: nat, p: Page, e: Entry, s': Space, s1: Space, c: nat)
    requires InTree(s, t, level, p, e, s') && level >= 2 && At(s.mem, Loc(t, Idx(p, level))).frame == 0
    requires (s1, c) == EnsureTable(s, t, level, Idx(p, level), e.flags)
    ensures c != 0 && At(s'.mem, Loc(t, Idx(p, level))).frame == c && s' == MapFrom(s1, c, level - 1, p, e)
  {
    NewNode(s, t, level, Idx(p, level), e.flags, s1, c);
    NodeLinked(s1, c, level - 1, p, e, s');
  }

  /** Past an existing link the walk is still in the well-formed tree. */
  lemma TreeStep(s: Space, t: nat, level: nat, p: Page, e: Entry, s': Space, s1: Space, c: nat)
    requires InTree(s, t, level, p, e, s') && level >= 2 && At(s.mem, Loc(t, Idx(p, level))).frame != 0
    requires (s1, c) == EnsureTable(s, t, level, Idx(p, level), e.flags)
    ensures InTree(s1, c, level - 1, p, e, s')
  {
    var i := Idx(p, level);
    var below := level - 1;
    EnsureOld(s, t, i, e.flags);
    OldLinked(s, t, level, p, e, s', c);
    forall q: Page
      ensures LeafEntry(s'.mem, c, below, q) == if SameBelow(p, q, below) then e else LeafEntry(s1.mem, c, below, q)
    {
      var q' := WithIdx(q, level, i);
      assert LeafEntry(s'.mem, t, level, q') == LeafEntry(s'.mem, c, below, q');
      assert LeafEntry(s.mem, t, level, q') == LeafEntry(s.mem, c, below, q');
      LeafEntryBelow(s'.mem, c, below, q, q');
      LeafEntryBelow(s.mem, c, below, q, q');
      EnsureView(s, t, i, e.flags, c, q);
      assert SameBelow(p, q', level) <==> SameBelow(p, q, below);
    }
  }

  /** At the first missing table the chain begins. */
  lemma TreeToChain(s: Space, t: nat, level: nat, p: Page, e: Entry, s': Space, s1: Space, c: nat)
    requires InTree(s, t, level, p, e, s') && level >= 2 && At(s.mem, Loc(t, Idx(p, level))).frame == 0
    requires (s1, c) == EnsureTable(s, t, level, Idx(p, level), e.flags)
    ensures c != 0 && InChain(s1, c, level - 1, p, e, s')
  {
    var i := Idx(p, level);
    NewLinked(s, t, level, p, e, s', s1, c);
    NewNode(s, t, level, i, e.flags, s1, c);
    forall x | x in s.tables && s.tables[x].level < 4 ensures s.tables[x].up.frame in s.tables {
      assert Linked(s.mem, s.tables, x);
    }
    forall q: Page | Idx(q, level) == i
      ensures LeafEntry(s'.mem, t, level, q) == if SameBelow(p, q, level) then e else ZERO
    {
      assert LeafEntry(s.mem, t, level, q) == ZERO;
    }
    ShowsThrough(s'.mem, t, level, i, c, p, e);
  }

  lemma EndsWellStep(s: Space, t: nat, level: nat, p: Page, flags: Flags, s1: Space, c: nat)
    requires level >= 2 && (s1, c) == EnsureTable(s, t, level, Idx(p, level), flags) && c != 0
    requires Absent(s, At(s.mem, Loc(t, Idx(p, level)))) ==> CleanAside(s1, c, level - 1, p)
    ensures EndsWell(s1, c, level - 1, p, flags) ==> EndsWell(s, t, level, p, flags)
  {
  }

  lemma ChainEnd(s: Space, t: nat, level: nat, p: Page, e: Entry, s': Space, s1: Space, c: nat)
    requires InTree(s, t, level, p, e, s') && level >= 2 && At(s.mem, Loc(t, Idx(p, level))).frame == 0
    requires (s1, c) == EnsureTable(s, t, level, Idx(p, level), e.flags)
    ensures EndsWell(s, t, level, p, e.flags)
  {
    TreeToChain(s, t, level, p, e, s', s1, c);
    ChainAside(s1, c, level - 1, p, e, s');
    ChainEndsWell(s1, c, level - 1, p, e, s');
    EndsWellStep(s, t, level, p, e.flags, s1, c);
  }

  lemma {:induction false} TreeEndsWell(s: Space, t: nat, level: nat, p: Page, e: Entry, s': Space)
    ensures InTree(s, t, level, p, e, s') ==> EndsWell(s, t, level, p, e.flags)
    decreases level
  {
    if level >= 2 && InTree(s, t, level, p, e, s') {
      var (s1, c) := EnsureTable(s, t, level, Idx(p, level), e.flags);
      if At(s.mem, Loc(t, Idx(p, level))).frame == 0 {
        ChainEnd(s, t, level, p, e, s', s1, c);
      } else {
        AbsentIsNull(s, t, Idx(p, level));
        TreeStep(s, t, level, p, e, s', s1, c);
        TreeEndsWell(s1, c, level - 1, p, e, s');
        EndsWellStep(s, t, level, p, e.flags, s1, c);
      }
    }
  }

  /** map keeps the invariant, gives the page its entry, and changes no other page of any space, if
      and only if each missing table finds a frame whose words, the one overwritten next aside, are
      those of an empty table. */
  lemma MapExact(s: Space, r: nat, p: Page, e: Entry)
    requires Inv(s) && IsRoot(s, r) && Mappable(s, p) && HUGE !in e.flags && e != ZERO
    ensures Mapped(s, r, p, e, MapFrom(s, r, 4, p, e)) <==> EndsWell(s, r, 4, p, e.flags)
  {
    var s' := MapFrom(s, r, 4, p, e);
    if EndsWell(s, r, 4, p, e.flags) {
      EndsWellMaps(s, r, p, e);
    }
    if Mapped(s, r, p, e, s') {
      forall q: Page
        ensures LeafEntry(s'.mem, r, 4, q) == if SameBelow(p, q, 4) then e else LeafEntry(s.mem, r, 4, q)
      {
        assert SameBelow(p, q, 4) <==> SamePage(r, p, r, q);
      }
      TreeEndsWell(s, r, 4, p, e, s');
    }
  }

  /** Frames that are clean altogether are clean enough. */
  lemma CleanEndsWell(s: Space, r: nat, p: Page, e: Entry)
    requires MapReady(s, r, p, e.flags) && e != ZERO
    ensures EndsWell(s, r, 4, p, e.flags)
  {
    MappedFromClean(s, r, p, e);
    MapExact(s, r, p, e);
  }
}
