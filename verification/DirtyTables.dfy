/**
 What create_table of src/memory/paging.c takes for granted: that a frame is free and that its
 contents are an empty table.  Exactly when the walk can do without checking either.
 */
module DirtyTables {
  import opened Frames
  import opened PageTables

  // ---------- no free frame ----------

  lemma {:induction false} NullTableStays(s: Space, t: nat, level: nat, p: Page, flags: Flags)
    requires 0 in s.tables
    ensures 0 in MapPath(s, t, level, p, flags).tables
    decreases level
  {
    if level >= 2 {
      var (s1, c) := EnsureTable(s, t, level, Idx(p, level), flags);
      NullTableStays(s1, c, level - 1, p, flags);
    }
  }

  /** create_table does not check its allocation: a walk that meets clean frames keeps the
      invariant if and only if there are as many free frames as tables missing; otherwise frame 0
      becomes a table. */
  lemma MapNeedsFrames(s: Space, t: nat, p: Page, flags: Flags)
    requires Inv(s) && t in s.tables && HUGE !in flags && CleanPath(s, t, s.tables[t].level, p, flags)
    ensures Inv(MapPath(s, t, s.tables[t].level, p, flags))
            <==> Missing(s.mem, t, s.tables[t].level, p) <= |FreeSet(s.pmm)|
  {
    if Missing(s.mem, t, s.tables[t].level, p) <= |FreeSet(s.pmm)| {
      MapPathKeeps(s, t, s.tables[t].level, p, flags);
    } else {
      NoRoomNullTable(s, t, s.tables[t].level, p, flags);
    }
  }

  /** A walk on clean frames that lacks some of them. */
  ghost predicate NoRoom(s: Space, t: nat, level: nat, p: Page, flags: Flags) {
    && Inv(s) && t in s.tables && s.tables[t].level == level && HUGE !in flags && CleanPath(s, t, level, p, flags)
    && Missing(s.mem, t, level, p) > |FreeSet(s.pmm)|
  }

  lemma {:induction false} NoRoomNullTable(s: Space, t: nat, level: nat, p: Page, flags: Flags)
    ensures NoRoom(s, t, level, p, flags) ==> 0 in MapPath(s, t, level, p, flags).tables
    decreases level
  {
    if level >= 2 && NoRoom(s, t, level, p, flags) {
      var (s1, c) := EnsureTable(s, t, level, Idx(p, level), flags);
      if At(s.mem, Loc(t, Idx(p, level))).frame != 0 {
        NoRoomFollow(s, t, level, p, flags, s1, c);
        NoRoomNullTable(s1, c, level - 1, p, flags);
      } else if FreeSet(s.pmm) == {} {
        NoFrameLeft(s.pmm);
        NullTableStays(s1, c, level - 1, p, flags);
      } else {
        NoRoomStep(s, t, level, p, flags, s1, c);
        NoRoomNullTable(s1, c, level - 1, p, flags);
      }
    }
  }

  lemma NoRoomFollow(s: Space, t: nat, level: nat, p: Page, flags: Flags, s1: Space, c: nat)
    requires NoRoom(s, t, level, p, flags) && level >= 2 && (s1, c) == EnsureTable(s, t, level, Idx(p, level), flags)
    requires At(s.mem, Loc(t, Idx(p, level))).frame != 0
    ensures NoRoom(s1, c, level - 1, p, flags)
  {
    EnsureOld(s, t, Idx(p, level), flags);
    MissingSame(s.mem, s1.mem, c, level - 1, p);
  }

  lemma NoRoomStep(s: Space, t: nat, level: nat, p: Page, flags: Flags, s1: Space, c: nat)
    requires NoRoom(s, t, level, p, flags) && level >= 2 && (s1, c) == EnsureTable(s, t, level, Idx(p, level), flags)
    requires FreeSet(s.pmm) != {} && At(s.mem, Loc(t, Idx(p, level))).frame == 0
    ensures NoRoom(s1, c, level - 1, p, flags)
  {
    TakesFree(s);
    EnsureNew(s, t, Idx(p, level), flags);
    BlankBelow(s1.mem, c, level - 1, p);
  }

  lemma NoFrameLeft(p: Pmm)
    requires Ready(p) && FreeSet(p) == {}
    ensures Alloc(p, 1).0 == 0
  {
    AllocOne(p);
    forall k: nat | k < p.frames ensures k in p.reserved {
      assert k !in FreeSet(p);
    }
  }

  // ---------- a frame that was not cleared ----------

  /** A word of a new inner table that is not quiet breaks the tree: no table can be recorded
      under a frame that was free. */
  lemma DirtyWord(s: Space, t: nat, i: Index, flags: Flags, j: Index)
    requires Inv(s) && t in s.tables && s.tables[t].level > 2 && At(s.mem, Loc(t, i)).frame == 0
    requires FreeSet(s.pmm) != {} && !Quiet(At(s.mem, Loc(Alloc(s.pmm, 1).0, j)))
    ensures !Inv(EnsureTable(s, t, s.tables[t].level, i, flags).0)
  {
    var (s', c) := EnsureTable(s, t, s.tables[t].level, i, flags);
    TakesFree(s);
    var e := At(s.mem, Loc(c, j));
    assert e == At(s'.mem, Loc(c, j));
    assert e.frame in s.tables && s.tables[e.frame].level < 4 ==> Linked(s.mem, s.tables, e.frame);
    assert !SlotOk(s'.mem, s'.tables, s'.kernel, c, j);
  }

  /** Creating one table, of any level, keeps the invariant if and only if a frame is free and,
      for an inner table, each of its words has no frame and neither the present nor the
      page-size bit. */
  lemma NewTableExact(s: Space, t: nat, i: Index, flags: Flags)
    requires Inv(s) && t in s.tables && s.tables[t].level >= 2 && HUGE !in flags && At(s.mem, Loc(t, i)).frame == 0
    ensures Inv(EnsureTable(s, t, s.tables[t].level, i, flags).0)
            <==> FreeSet(s.pmm) != {} && (s.tables[t].level > 2 ==> NextBlank(s, s.tables[t].level - 1))
  {
    var level := s.tables[t].level;
    var (s', c) := EnsureTable(s, t, level, i, flags);
    if FreeSet(s.pmm) == {} {
      NoFrameLeft(s.pmm);
    } else {
      TakesFree(s);
      if level > 2 && !NextBlank(s, level - 1) {
        var j: Index :| !Quiet(At(s.mem, Loc(c, j)));
        DirtyWord(s, t, i, flags, j);
      } else {
        LinkNew(s, t, i, flags, c, s'.pmm, s');
      }
    }
  }

  /** No page of any space has another entry in `s'` than in `s`. */
  ghost predicate SameEntries(s: Space, s': Space) {
    forall u: nat, q: Page | IsRoot(s, u) :: LeafEntry(s'.mem, u, 4, q) == LeafEntry(s.mem, u, 4, q)
  }

  /** Some page of some space goes through a given slot of a given inner table. */
  lemma PageThrough(s: Space, t: nat, i: Index, j: Index) returns (u: nat, q: Page)
    requires Inv(s) && t in s.tables && s.tables[t].level == 2
    ensures IsRoot(s, u) && q.i2 == i && q.i1 == j
    ensures var t3 := At(s.mem, Loc(u, q.i4)).frame; t3 != 0 && At(s.mem, Loc(t3, q.i3)).frame == t
  {
    assert Linked(s.mem, s.tables, t);
    var t3 := s.tables[t].up.frame;
    assert Linked(s.mem, s.tables, t3);
    u := s.tables[t3].up.frame;
    q := Page(s.tables[t3].up.index, s.tables[t].up.index, i, j);
  }

  /** An entry left behind in a new leaf table becomes visible. */
  lemma DirtyLeaf(s: Space, t: nat, i: Index, flags: Flags, j: Index)
    requires Inv(s) && t in s.tables && s.tables[t].level == 2 && At(s.mem, Loc(t, i)).frame == 0
    requires FreeSet(s.pmm) != {} && At(s.mem, Loc(Alloc(s.pmm, 1).0, j)) != ZERO
    ensures !SameEntries(s, EnsureTable(s, t, 2, i, flags).0)
  {
    var (s', c) := EnsureTable(s, t, 2, i, flags);
    TakesFree(s);
    var u, q := PageThrough(s, t, i, j);
    var t3 := At(s.mem, Loc(u, q.i4)).frame;
    assert SlotOk(s.mem, s.tables, s.kernel, u, q.i4) && SlotOk(s.mem, s.tables, s.kernel, t3, q.i3);
    WalkDown(s.mem, u, q, t3, t);
    WalkDown(s'.mem, u, q, t3, t);
    assert LeafEntry(s.mem, t, 2, q) == ZERO;
    assert LeafEntry(s'.mem, t, 2, q) == LeafEntry(s'.mem, c, 1, q) == At(s.mem, Loc(c, j));
  }

  lemma WalkDown(m: Mem, u: nat, q: Page, t3: nat, t: nat)
    requires At(m, Loc(u, q.i4)).frame == t3 != 0 && At(m, Loc(t3, q.i3)).frame == t != 0
    ensures LeafEntry(m, u, 4, q) == LeafEntry(m, t, 2, q)
  {
    assert LeafEntry(m, u, 4, q) == LeafEntry(m, t3, 3, q);
  }

  ghost predicate StepSound(s: Space, s': Space) {
    Inv(s') && SameEntries(s, s')
  }

  /** Creating one table keeps the invariant and every translation if and only if a frame is free
      and an empty table already. */
  lemma NewTableSound(s: Space, t: nat, i: Index, flags: Flags)
    requires Inv(s) && t in s.tables && s.tables[t].level >= 2 && HUGE !in flags && At(s.mem, Loc(t, i)).frame == 0
    ensures StepSound(s, EnsureTable(s, t, s.tables[t].level, i, flags).0) <==> CanEnsure(s, t, s.tables[t].level, i)
  {
    var level := s.tables[t].level;
    var (s', c) := EnsureTable(s, t, level, i, flags);
    NewTableExact(s, t, i, flags);
    if CanEnsure(s, t, level, i) {
      EnsureSame(s, t, i, flags);
    } else if FreeSet(s.pmm) != {} && level == 2 {
      var j: Index :| At(s.mem, Loc(c, j)) != ZERO;
      DirtyLeaf(s, t, i, flags, j);
    }
  }

  lemma EnsureSame(s: Space, t: nat, i: Index, flags: Flags)
    requires Inv(s) && t in s.tables && s.tables[t].level >= 2 && HUGE !in flags
    requires CanEnsure(s, t, s.tables[t].level, i)
    ensures SameEntries(s, EnsureTable(s, t, s.tables[t].level, i, flags).0)
  {
    forall u: nat, q: Page | IsRoot(s, u)
      ensures LeafEntry(EnsureTable(s, t, s.tables[t].level, i, flags).0.mem, u, 4, q) == LeafEntry(s.mem, u, 4, q)
    {
      EnsureView(s, t, i, flags, u, q);
    }
  }

  // ---------- the whole walk ----------

  /** Every step of the walk keeps the invariant and every translation. */
  ghost predicate WalkSound(s: Space, t: nat, level: nat, p: Page, flags: Flags)
    decreases level, p
  {
    level <= 1 ||
    var (s', c) := EnsureTable(s, t, level, Idx(p, level), flags);
    StepSound(s, s') && WalkSound(s', c, level - 1, p, flags)
  }

  /** The creating walk is sound step by step if and only if there are frames for the missing
      tables and each is an empty table when it is taken. */
  lemma WalkExact(s: Space, t: nat, p: Page, flags: Flags)
    requires Inv(s) && t in s.tables && HUGE !in flags
    ensures WalkSound(s, t, s.tables[t].level, p, flags) <==> CanMap(s, t, s.tables[t].level, p, flags)
  {
    WalkExactFrom(s, t, s.tables[t].level, p, flags);
  }

  ghost predicate AtTable(s: Space, t: nat, level: nat, flags: Flags) {
    Inv(s) && t in s.tables && s.tables[t].level == level && HUGE !in flags
  }

  lemma {:induction false} WalkExactFrom(s: Space, t: nat, level: nat, p: Page, flags: Flags)
    ensures AtTable(s, t, level, flags) ==> (WalkSound(s, t, level, p, flags) <==> CanMap(s, t, level, p, flags))
    decreases level
  {
    if level >= 2 && AtTable(s, t, level, flags) {
      var (s', c) := EnsureTable(s, t, level, Idx(p, level), flags);
      WalkExactFrom(s', c, level - 1, p, flags);
      StepExact(s, t, level, p, flags, s', c);
      WalkSoundStep(s, t, level, p, flags, s', c);
    }
  }

  lemma WalkSoundStep(s: Space, t: nat, level: nat, p: Page, flags: Flags, s': Space, c: nat)
    requires level >= 2 && (s', c) == EnsureTable(s, t, level, Idx(p, level), flags)
    ensures WalkSound(s, t, level, p, flags) <==> StepSound(s, s') && WalkSound(s', c, level - 1, p, flags)
  {
  }

  /** One step: sound if and only if its table exists or can be created, and then the rest of the
      walk has what it needs if and only if the whole had. */
  lemma StepExact(s: Space, t: nat, level: nat, p: Page, flags: Flags, s': Space, c: nat)
    requires AtTable(s, t, level, flags) && level >= 2 && (s', c) == EnsureTable(s, t, level, Idx(p, level), flags)
    ensures CanMap(s, t, level, p, flags) ==> StepSound(s, s')
    ensures StepSound(s, s') ==>
              && AtTable(s', c, level - 1, flags)
              && (CanMap(s, t, level, p, flags) <==> CanMap(s', c, level - 1, p, flags))
  {
    if At(s.mem, Loc(t, Idx(p, level))).frame != 0 {
      FollowExact(s, t, level, p, flags, s', c);
    } else {
      CreateExact(s, t, level, p, flags, s', c);
    }
  }

  lemma FollowExact(s: Space, t: nat, level: nat, p: Page, flags: Flags, s': Space, c: nat)
    requires AtTable(s, t, level, flags) && level >= 2 && (s', c) == EnsureTable(s, t, level, Idx(p, level), flags)
    requires At(s.mem, Loc(t, Idx(p, level))).frame != 0
    ensures StepSound(s, s') && AtTable(s', c, level - 1, flags)
    ensures CanMap(s, t, level, p, flags) <==> CanMap(s', c, level - 1, p, flags)
  {
    EnsureOld(s, t, Idx(p, level), flags);
    EnsureSame(s, t, Idx(p, level), flags);
    FollowNeeds(s, t, level, p, flags, s', c);
  }

  lemma FollowNeeds(s: Space, t: nat, level: nat, p: Page, flags: Flags, s': Space, c: nat)
    requires AtTable(s, t, level, flags) && level >= 2 && (s', c) == EnsureTable(s, t, level, Idx(p, level), flags)
    requires At(s.mem, Loc(t, Idx(p, level))).frame != 0
    ensures CanMap(s, t, level, p, flags) <==> CanMap(s', c, level - 1, p, flags)
  {
    EnsureOld(s, t, Idx(p, level), flags);
    MissingSame(s.mem, s'.mem, c, level - 1, p);
    CleanStep(s, t, level, p, flags, s', c);
  }

  lemma CreateExact(s: Space, t: nat, level: nat, p: Page, flags: Flags, s': Space, c: nat)
    requires AtTable(s, t, level, flags) && level >= 2 && (s', c) == EnsureTable(s, t, level, Idx(p, level), flags)
    requires At(s.mem, Loc(t, Idx(p, level))).frame == 0
    ensures CanMap(s, t, level, p, flags) ==> StepSound(s, s')
    ensures StepSound(s, s') ==>
              && AtTable(s', c, level - 1, flags)
              && (CanMap(s, t, level, p, flags) <==> CanMap(s', c, level - 1, p, flags))
  {
    NewTableSound(s, t, Idx(p, level), flags);
    if CanEnsure(s, t, level, Idx(p, level)) {
      CreatedRest(s, t, level, p, flags, s', c);
    } else if FreeSet(s.pmm) != {} {
      TakesFree(s);
    }
  }

  lemma CreatedRest(s: Space, t: nat, level: nat, p: Page, flags: Flags, s': Space, c: nat)
    requires AtTable(s, t, level, flags) && level >= 2 && (s', c) == EnsureTable(s, t, level, Idx(p, level), flags)
    requires At(s.mem, Loc(t, Idx(p, level))).frame == 0 && CanEnsure(s, t, level, Idx(p, level))
    ensures AtTable(s', c, level - 1, flags)
    ensures CanMap(s, t, level, p, flags) <==> CanMap(s', c, level - 1, p, flags)
  {
    CreatedCost(s, t, level, p, flags, s', c);
    CleanStep(s, t, level, p, flags, s', c);
    CanMapStep(s, t, level, p, flags, s', c);
  }

  lemma CreatedCost(s: Space, t: nat, level: nat, p: Page, flags: Flags, s': Space, c: nat)
    requires AtTable(s, t, level, flags) && level >= 2 && (s', c) == EnsureTable(s, t, level, Idx(p, level), flags)
    requires At(s.mem, Loc(t, Idx(p, level))).frame == 0 && CanEnsure(s, t, level, Idx(p, level))
    ensures c != 0 && AtTable(s', c, level - 1, flags)
    ensures |FreeSet(s'.pmm)| == |FreeSet(s.pmm)| - 1
    ensures Missing(s.mem, t, level, p) == Missing(s'.mem, c, level - 1, p) + 1
  {
    EnsureNew(s, t, Idx(p, level), flags);
    BlankBelow(s'.mem, c, level - 1, p);
  }

  lemma CanMapStep(s: Space, t: nat, level: nat, p: Page, flags: Flags, s': Space, c: nat)
    requires level >= 2 && (CleanPath(s, t, level, p, flags) <==> CleanPath(s', c, level - 1, p, flags))
    requires |FreeSet(s'.pmm)| == |FreeSet(s.pmm)| - 1
    requires Missing(s.mem, t, level, p) == Missing(s'.mem, c, level - 1, p) + 1
    ensures CanMap(s, t, level, p, flags) <==> CanMap(s', c, level - 1, p, flags)
  {
  }

  lemma CleanStep(s: Space, t: nat, level: nat, p: Page, flags: Flags, s': Space, c: nat)
    requires level >= 2 && (s', c) == EnsureTable(s, t, level, Idx(p, level), flags) && c != 0
    requires At(s.mem, Loc(t, Idx(p, level))).frame == 0 ==> NextBlank(s, level - 1)
    ensures CleanPath(s, t, level, p, flags) <==> CleanPath(s', c, level - 1, p, flags)
  {
  }
}
