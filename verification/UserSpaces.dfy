/**
 create_user_pml4 of src/memory/paging.c: a new address space that shares the lowest 512 GiB
 with the kernel and is empty above.
 */
module UserSpaces {
  import opened Wrappers
  import opened Frames
  import opened PageTables
  import opened Mapping
  import opened DirtyTables
  import opened Windowed
  import opened PageRanges
  import opened AddressSpaces
  import opened PageAllocation

  const ROOT_FLAGS: Flags := {PRESENT, WRITEABLE, USER}

  // ---------- words outside the tables ----------

  /** A write to a reserved frame that is no table is invisible to every walk. */
  lemma DataWriteKeeps(s: Space, l: Loc, e: Entry)
    requires Inv(s) && l.frame !in s.tables && l.frame in s.pmm.reserved
    ensures Inv(s.(mem := s.mem[l := e])) && (ZeroFree(s) ==> ZeroFree(s.(mem := s.mem[l := e])))
    ensures WindowSlot(s.mem[l := e], s.kernel) == WindowSlot(s.mem, s.kernel) != l
  {
    var s' := s.(mem := s.mem[l := e]);
    LeafWriteKeepsTree(s.mem, s.tables, s.kernel, l, e);
    WindowFixed(s, l, e);
    WindowLeaf(s);
    forall f: nat | Pinned(s', f) ensures HwFrame(s'.mem, s.kernel, LowPage(f)) == Some(f) {
      assert Pinned(s, f);
      DataWriteHw(s, l, e, s.kernel, LowPage(f));
    }
    forall f: nat | IsFree(s', f) && ZeroFree(s) ensures Zeroed(s'.mem, f) {
      assert IsFree(s, f) && f != l.frame;
    }
  }

  lemma DataWriteHw(s: Space, l: Loc, e: Entry, u: nat, q: Page)
    requires Inv(s) && l.frame !in s.tables && IsRoot(s, u)
    ensures HwFrame(s.mem[l := e], u, q) == HwFrame(s.mem, u, q)
  {
    LeafWrite(s.mem, s.tables, s.kernel, l, e, u, q);
    if HwLeaf(s.mem, u, 4, q).Some? {
      HwIsLeaf(s.mem, s.tables, s.kernel, u, q);
    }
  }

  lemma DataWriteView(s: Space, l: Loc, e: Entry, u: nat, q: Page)
    requires Inv(s) && l.frame !in s.tables && IsRoot(s, u)
    ensures LeafEntry(s.mem[l := e], u, 4, q) == LeafEntry(s.mem, u, 4, q)
  {
    LeafWrite(s.mem, s.tables, s.kernel, l, e, u, q);
    if Leaf(s.mem, u, 4, q).Some? {
      LeafLevel(s.mem, s.tables, s.kernel, u, q);
    }
  }

  // ---------- the new root ----------

  /** Words 1 .. n-1 of frame `f` cleared, one after the other. */
  ghost function ClearWords(m: Mem, f: nat, n: nat): Mem {
    if n <= 1 then m else ClearWords(m, f, n - 1)[Loc(f, n - 1) := ZERO]
  }

  lemma {:induction false} ClearWordsAt(m: Mem, f: nat, n: nat, l: Loc)
    ensures At(ClearWords(m, f, n), l) == if l.frame == f && 1 <= l.index < n then ZERO else At(m, l)
  {
    if n > 1 { ClearWordsAt(m, f, n - 1, l); }
  }

  /** The memory create_user_pml4 leaves behind. */
  ghost function RootMem(m: Mem, f: nat, k: nat): Mem {
    ClearWords(m, f, 512)[Loc(f, 0) := At(m, Loc(k, 0))]
  }

  lemma {:induction false} ClearWordsKeeps(s: Space, f: nat, n: nat)
    requires Inv(s) && f !in s.tables && f in s.pmm.reserved
    ensures Inv(s.(mem := ClearWords(s.mem, f, n)))
  {
    if n > 1 {
      ClearWordsKeeps(s, f, n - 1);
      DataWriteKeeps(s.(mem := ClearWords(s.mem, f, n - 1)), Loc(f, n - 1), ZERO);
    }
  }

  lemma {:induction false} ClearWordsView(s: Space, f: nat, n: nat, u: nat, q: Page)
    requires Inv(s) && f !in s.tables && f in s.pmm.reserved && IsRoot(s, u)
    ensures LeafEntry(ClearWords(s.mem, f, n), u, 4, q) == LeafEntry(s.mem, u, 4, q)
  {
    if n > 1 {
      ClearWordsView(s, f, n - 1, u, q);
      ClearWordsKeeps(s, f, n - 1);
      DataWriteView(s.(mem := ClearWords(s.mem, f, n - 1)), Loc(f, n - 1), ZERO, u, q);
    }
  }

  /** `s` with frame `f` made a root. */
  ghost function WithRoot(s: Space, f: nat): Space {
    s.(mem := RootMem(s.mem, f, s.kernel), tables := s.tables[f := Node(4, Loc(f, 0))])
  }

  lemma RootTree(m: Mem, T: Tables, k: nat, f: nat)
    requires Tree(m, T, k) && f !in T && f != 0
    requires At(m, Loc(f, 0)) == At(m, Loc(k, 0)) && forall i: Index :: i != 0 ==> At(m, Loc(f, i)) == ZERO
    ensures Tree(m, T[f := Node(4, Loc(f, 0))], k)
  {
    var T' := T[f := Node(4, Loc(f, 0))];
    assert SlotOk(m, T, k, k, 0);
    forall t, i: Index | t in T' && T'[t].level >= 2 ensures SlotOk(m, T', k, t, i) {
      if t != f {
        assert SlotOk(m, T, k, t, i);
      }
    }
    forall t | t in T' && T'[t].level < 4 ensures Linked(m, T', t) {
      assert Linked(m, T, t);
    }
  }

  lemma RootKeeps(s: Space, f: nat)
    requires Inv(s) && f !in s.tables && f in s.pmm.reserved && LOW <= f
    ensures Inv(WithRoot(s, f)) && IsRoot(WithRoot(s, f), f)
  {
    var s1 := s.(mem := ClearWords(s.mem, f, 512));
    ClearWordsKeeps(s, f, 512);
    DataWriteKeeps(s1, Loc(f, 0), At(s.mem, Loc(s.kernel, 0)));
    var s2 := s.(mem := RootMem(s.mem, f, s.kernel));
    forall i: Index ensures i != 0 ==> At(s2.mem, Loc(f, i)) == ZERO {
      ClearWordsAt(s.mem, f, 512, Loc(f, i));
    }
    ClearWordsAt(s.mem, f, 512, Loc(s.kernel, 0));
    RootTree(s2.mem, s.tables, s.kernel, f);
    assert forall g: nat :: Pinned(WithRoot(s, f), g) ==> Pinned(s2, g);
  }

  /** Only the new root's own frame is written. */
  lemma RootOnlyTables(s: Space, f: nat)
    ensures OnlyTables(s, WithRoot(s, f))
  {
    var s' := WithRoot(s, f);
    forall g: nat, i: Index | g !in s'.tables ensures At(s'.mem, Loc(g, i)) == At(s.mem, Loc(g, i)) {
      ClearWordsAt(s.mem, f, 512, Loc(g, i));
    }
  }

  /** Existing spaces keep every translation; the new one shares the lowest 512 GiB and maps
      nothing else. */
  lemma RootView(s: Space, f: nat, u: nat, q: Page)
    requires Inv(s) && f !in s.tables && f in s.pmm.reserved && LOW <= f && IsRoot(s, u)
    ensures LeafEntry(WithRoot(s, f).mem, u, 4, q) == LeafEntry(s.mem, u, 4, q)
    ensures LeafEntry(WithRoot(s, f).mem, f, 4, q) == if q.i4 == 0 then LeafEntry(s.mem, s.kernel, 4, q) else ZERO
  {
    RootViewOld(s, f, u, q);
    RootViewOld(s, f, s.kernel, q);
    RootKeeps(s, f);
    if q.i4 == 0 {
      var s' := WithRoot(s, f);
      SharedLowHalf(s'.mem, s'.tables, s.kernel, f, q);
    } else {
      ClearWordsAt(s.mem, f, 512, Loc(f, q.i4));
    }
  }

  lemma RootViewOld(s: Space, f: nat, u: nat, q: Page)
    requires Inv(s) && f !in s.tables && f in s.pmm.reserved && IsRoot(s, u)
    ensures LeafEntry(WithRoot(s, f).mem, u, 4, q) == LeafEntry(s.mem, u, 4, q)
  {
    ClearWordsView(s, f, 512, u, q);
    ClearWordsKeeps(s, f, 512);
    DataWriteView(s.(mem := ClearWords(s.mem, f, 512)), Loc(f, 0), At(s.mem, Loc(s.kernel, 0)), u, q);
  }

  lemma RootWordsAside(s: Space, f: nat, l: Loc)
    requires l.frame != f
    ensures At(WithRoot(s, f).mem, l) == At(s.mem, l)
  {
    ClearWordsAt(s.mem, f, 512, l);
  }

  lemma RootReaches(s: Space, f: nat, u: nat, q: Page)
    requires Inv(s) && f !in s.tables && f in s.pmm.reserved && LOW <= f && HwAgrees(s) && IsRoot(s, u)
    ensures HwFrame(WithRoot(s, f).mem, u, q) == Translate(WithRoot(s, f).mem, u, q)
  {
    forall l: Loc | l.frame in s.tables ensures At(WithRoot(s, f).mem, l) == At(s.mem, l) {
      RootWordsAside(s, f, l);
    }
    SameReaches(s, WithRoot(s, f).mem, u, q);
    assert HwFrame(s.mem, u, q) == Translate(s.mem, u, q);
  }

  lemma NewRootReaches(s: Space, f: nat, q: Page)
    requires Inv(s) && f !in s.tables && f in s.pmm.reserved && LOW <= f && HwAgrees(s)
    ensures HwFrame(WithRoot(s, f).mem, f, q) == Translate(WithRoot(s, f).mem, f, q)
  {
    var s' := WithRoot(s, f);
    RootKeeps(s, f);
    if q.i4 == 0 {
      SharedLowHalf(s'.mem, s'.tables, s.kernel, f, q);
      RootReaches(s, f, s.kernel, q);
    } else {
      ClearWordsAt(s.mem, f, 512, Loc(f, q.i4));
    }
  }

  /** Processor and software walk agree on the new space, too. */
  lemma RootAgrees(s: Space, f: nat)
    requires Inv(s) && f !in s.tables && f in s.pmm.reserved && LOW <= f && HwAgrees(s)
    ensures HwAgrees(WithRoot(s, f))
  {
    var s' := WithRoot(s, f);
    forall u: nat, q: Page | IsRoot(s', u) ensures HwFrame(s'.mem, u, q) == Translate(s'.mem, u, q) {
      if u == f {
        NewRootReaches(s, f, q);
      } else {
        assert IsRoot(s, u);
        RootReaches(s, f, u, q);
      }
    }
  }

  // ---------- the method ----------

  /** A data write commutes with the mask. */
  lemma MaskData(s: Space, l: Loc, e: Entry)
    requires Inv(s) && l.frame !in s.tables && l.frame in s.pmm.reserved
    ensures Mask(s.(mem := s.mem[l := e])) == Mask(s).(mem := Mask(s).mem[l := e])
  {
    DataWriteKeeps(s, l, e);
    var w := WindowSlot(s.mem, s.kernel);
    assert s.mem[l := e][w := ZERO] == s.mem[w := ZERO][l := e];
  }

  /** A page mapped to frame `f` leads every one of its words to the word of `f`. */
  lemma WordAddress(f: nat, i: Index)
    ensures PageOf(f * 0x1000 + 8 * i) == PageNo(f) && WordOf(f * 0x1000 + 8 * i) == i
  {
    assert (f * 0x1000 + 8 * i) / 0x1000 == f;
    PageOfByte(f * 0x1000 + 8 * i);
  }

  /** A write to frame `f` through its own address, once its page is mapped there. */
  method StoreWord(k: Kernel, f: nat, i: Index, e: Entry)
    requires k.Valid() && f !in k.tables && f in k.pmm.View().reserved
    requires HwFrame(k.mem, k.cr3, PageNo(f)) == Some(f)
    modifies k`mem
    ensures k.Valid() && k.Abs() == old(k.Abs()).(mem := old(k.Abs()).mem[Loc(f, i) := e])
    ensures HwFrame(k.mem, k.cr3, PageNo(f)) == Some(f)
  {
    ghost var s := k.Actual();
    WordAddress(f, i);
    DataWriteKeeps(s, Loc(f, i), e);
    DataWriteHw(s, Loc(f, i), e, k.cr3, PageNo(f));
    MaskData(s, Loc(f, i), e);
    k.Store(f * 0x1000 + 8 * i, e);
  }

  /** A frame can be had for the root, and clean ones for the tables of its identity mapping. */
  ghost predicate CanCreate(s: Space) {
    var f := Alloc(s.pmm, 1).0;
    f != 0 && s.pmm.frames <= PAGES && HighFree(s) && CanMap(Taken(s, 1), s.kernel, 4, PageNo(f), ROOT_FLAGS)
  }

  /** The frame of the new root is taken and mapped at its own address in the kernel's space. */
  ghost function RootMapped(s: Space): Space {
    var f := Alloc(s.pmm, 1).0;
    Map(Taken(s, 1), s.kernel, PageNo(f), Entry(f, ROOT_FLAGS))
  }

  /** create_user_pml4 as a whole: that frame is then made a root. */
  ghost function Create(s: Space): Space {
    WithRoot(RootMapped(s), Alloc(s.pmm, 1).0)
  }

  /** `s'` is `s` with a fresh address space `f`, whose frame is mapped for the kernel. */
  ghost predicate NewSpace(s: Space, f: nat, s': Space) {
    && Grows(s, s') && f !in s.tables && IsRoot(s', f) && KeepsRoots(s, s')
    && (forall u: nat, q: Page :: IsRoot(s, u) ==>
          LeafEntry(s'.mem, u, 4, q)
          == if SamePage(s.kernel, PageNo(f), u, q) then Entry(f, {PRESENT, WRITEABLE, USER})
             else LeafEntry(s.mem, u, 4, q))
    && (forall q: Page :: LeafEntry(s'.mem, f, 4, q) == if q.i4 == 0 then LeafEntry(s'.mem, s.kernel, 4, q) else ZERO)
  }

  lemma NewSpaceEffect(s: Space, s1: Space, s2: Space, f: nat)
    requires Inv(s2) && s1 == s.(pmm := s1.pmm) && s1.pmm.frames == s.pmm.frames
    requires IsFree(s, f) && s1.pmm.reserved == s.pmm.reserved + {f} && f !in s.tables && LOW <= f
    requires Grows(s1, s2) && Remaps(s1, s.kernel, PageNo(f), Entry(f, ROOT_FLAGS), s2)
    ensures NewSpace(s, f, WithRoot(s2, f)) && Inv(WithRoot(s2, f))
  {
    var s' := WithRoot(s2, f);
    FreshRoot(s, s1, s2, f);
    RootKeeps(s2, f);
    forall u: nat, q: Page | IsRoot(s, u)
      ensures LeafEntry(s'.mem, u, 4, q)
              == if SamePage(s.kernel, PageNo(f), u, q) then Entry(f, ROOT_FLAGS) else LeafEntry(s.mem, u, 4, q)
    {
      assert IsRoot(s1, u) && IsRoot(s2, u);
      RootViewOld(s2, f, u, q);
    }
    forall q: Page ensures LeafEntry(s'.mem, f, 4, q) == if q.i4 == 0 then LeafEntry(s'.mem, s.kernel, 4, q) else ZERO {
      RootView(s2, f, s2.kernel, q);
    }
  }

  lemma FreshRoot(s: Space, s1: Space, s2: Space, f: nat)
    requires s1 == s.(pmm := s1.pmm) && s1.pmm.frames == s.pmm.frames && Inv(s2)
    requires IsFree(s, f) && s1.pmm.reserved == s.pmm.reserved + {f} && f !in s.tables && Grows(s1, s2)
    ensures f !in s2.tables && f in s2.pmm.reserved && IsRoot(s2, s.kernel)
    ensures Grows(s, WithRoot(s2, f)) && KeepsRoots(s, WithRoot(s2, f))
  {
    assert f in s2.tables ==> f in NewTables(s1, s2);
    assert NewTables(s, WithRoot(s2, f)) == NewTables(s1, s2) + {f};
    RootOnlyTables(s2, f);
  }

  /** What the allocation of the new root's frame provides. */
  lemma RootAllocated(s: Space, s1: Space, f: nat)
    requires Inv(s) && CanCreate(s) && s1 == Taken(s, 1) && f == Alloc(s.pmm, 1).0
    ensures LOW <= f < PAGES && IsFree(s, f) && f !in s.tables
    ensures s1.pmm.frames == s.pmm.frames && s1.pmm.reserved == s.pmm.reserved + {f}
    ensures HighPage(PageNo(f)) && MapReady(s1, s.kernel, PageNo(f), ROOT_FLAGS)
  {
    AllocOne(s.pmm);
    assert IsFree(s, f);
    TakeKeepsInv(s, 1);
    PageNoHigh(f);
    HighPageMappable(s1, PageNo(f));
  }

  /** The active space reaches a frame mapped in the kernel's space: it is the kernel's, or shares
      the page. */
  ghost predicate Reaches(k: Kernel, f: nat)
    reads k
  {
    k.cr3 == k.root || f < 0x800_0000
  }

  lemma SharedPage(f: nat)
    requires f < 0x800_0000
    ensures PageNo(f).i4 == 0
  {
  }

  lemma ActiveReaches(s: Space, cr3: nat, f: nat)
    requires Inv(s) && IsRoot(s, cr3) && (cr3 == s.kernel || f < 0x800_0000)
    ensures HwFrame(s.mem, cr3, PageNo(f)) == HwFrame(s.mem, s.kernel, PageNo(f))
  {
    if cr3 != s.kernel {
      SharedPage(f);
      SharedLowHalf(s.mem, s.tables, s.kernel, cr3, PageNo(f));
    }
  }

  /** The identity mapping of the new root in the kernel's space. */
  method MapRoot(k: Kernel, addr: nat, ghost f: nat)
    requires k.Valid() && Reaches(k, f) && addr == f * 0x1000 && HighPage(PageNo(f))
    requires MapReady(k.Abs(), k.root, PageNo(f), ROOT_FLAGS)
    modifies k`mem, k`tables, k.pmm`lastIdx, k.pmm`lastBit, k.pmm`reserved, k.pmm.bitmap
    ensures k.Valid() && Grows(old(k.Abs()), k.Abs())
    ensures k.Abs() == Map(old(k.Abs()), k.root, PageNo(f), Entry(f, ROOT_FLAGS))
    ensures Remaps(old(k.Abs()), k.root, PageNo(f), Entry(f, ROOT_FLAGS), k.Abs())
    ensures HwFrame(k.mem, k.cr3, PageNo(f)) == Some(f)
  {
    ghost var s := k.Abs();
    ghost var p, e := PageNo(f), Entry(f, ROOT_FLAGS);
    AddressOfFrame(f);
    ghost var s' := Map(s, k.root, p, e);
    MapKeeps(s, k.root, p, e);
    MapRemaps(s, k.root, p, e, s');
    MapHw(s, k.root, p, e, k.root, p);
    k.MapFrame(k.root * 0x1000, addr, addr, ROOT_FLAGS, k.root);
    RootReached(k, f);
  }

  lemma RootReached(k: Kernel, f: nat)
    requires k.Valid() && Reaches(k, f) && HighPage(PageNo(f)) && HwFrame(k.Abs().mem, k.root, PageNo(f)) == Some(f)
    ensures HwFrame(k.mem, k.cr3, PageNo(f)) == Some(f)
  {
    MaskEntry(k.Actual(), k.root, PageNo(f));
    ActiveReaches(k.Actual(), k.cr3, f);
  }

  /** What holds once the frame is mapped. */
  lemma RootMappedEffect(s: Space, s1: Space, f: nat, s2: Space)
    requires Inv(s) && CanCreate(s) && s1 == Taken(s, 1) && f == Alloc(s.pmm, 1).0 && s2 == RootMapped(s)
    ensures Inv(s2) && Grows(s1, s2) && Remaps(s1, s.kernel, PageNo(f), Entry(f, ROOT_FLAGS), s2)
    ensures LOW <= f && f !in s2.tables && f in s2.pmm.reserved
  {
    RootAllocated(s, s1, f);
    MapKeeps(s1, s.kernel, PageNo(f), Entry(f, ROOT_FLAGS));
    MapRemaps(s1, s.kernel, PageNo(f), Entry(f, ROOT_FLAGS), s2);
    FreshRoot(s, s1, s2, f);
  }

  /** create_user_pml4 keeps the invariant and yields a fresh address space. */
  lemma CreateEffect(s: Space, f: nat, s': Space)
    requires Inv(s) && CanCreate(s) && f == Alloc(s.pmm, 1).0 && s' == Create(s)
    ensures Inv(s') && NewSpace(s, f, s')
  {
    var s1, s2 := Taken(s, 1), RootMapped(s);
    RootAllocated(s, s1, f);
    RootMappedEffect(s, s1, f, s2);
    NewSpaceEffect(s, s1, s2, f);
  }

  /** The words of the new root: the first is the kernel's, the others are clear. */
  lemma CreateWords(s: Space, f: nat, s': Space, i: Index)
    requires Inv(s) && CanCreate(s) && f == Alloc(s.pmm, 1).0 && s' == Create(s)
    ensures At(s'.mem, Loc(f, i)) == if i == 0 then At(s'.mem, Loc(s.kernel, 0)) else Entry(0, {})
    ensures s'.kernel == s.kernel != f
  {
    var s2 := RootMapped(s);
    CreateEffect(s, f, s');
    ClearWordsAt(s2.mem, f, 512, Loc(f, i));
    ClearWordsAt(s2.mem, f, 512, Loc(s2.kernel, 0));
  }

  lemma CreateAgrees(s: Space, f: nat, s': Space)
    requires Inv(s) && CanCreate(s) && f == Alloc(s.pmm, 1).0 && s' == Create(s) && HwAgrees(s)
    ensures HwAgrees(s')
  {
    var s1, s2 := Taken(s, 1), RootMapped(s);
    RootAllocated(s, s1, f);
    SameAgrees(s, s1);
    MapAgrees(s1, s.kernel, PageNo(f), Entry(f, ROOT_FLAGS), s2);
    RootMappedEffect(s, s1, f, s2);
    RootAgrees(s2, f);
  }

  /** The only new space is the one at `f`. */
  lemma CreateRoots(s: Space, f: nat, s': Space, u: nat)
    requires f == Alloc(s.pmm, 1).0 && s' == Create(s) && IsRoot(s', u)
    ensures u == f || IsRoot(s, u)
  {
    MapRoots(Taken(s, 1), s.kernel, PageNo(f), Entry(f, ROOT_FLAGS), u);
  }

  /** create_user_pml4 does not check its allocation: with clean frames for its mapping it keeps the
      invariant if and only if a frame is free; otherwise frame 0 becomes a root. */
  lemma CreateNeedsFrame(s: Space)
    requires Inv(s) && HighFree(s) && s.pmm.frames <= PAGES
    requires CanMap(Taken(s, 1), s.kernel, 4, PageNo(Alloc(s.pmm, 1).0), ROOT_FLAGS)
    ensures Inv(Create(s)) <==> FreeSet(s.pmm) != {}
  {
    var f := Alloc(s.pmm, 1).0;
    if FreeSet(s.pmm) != {} {
      TakesFree(s);
      CreateEffect(s, f, Create(s));
    } else {
      NoFrameLeft(s.pmm);
      assert 0 in Create(s).tables;
    }
  }

  /** The frame of the new root, taken and mapped. */
  method TakeRoot(k: Kernel) returns (addr: nat)
    requires k.Valid() && CanCreate(k.Abs()) && Reaches(k, Alloc(k.Abs().pmm, 1).0)
    modifies k`mem, k`tables, k.pmm`lastIdx, k.pmm`lastBit, k.pmm`reserved, k.pmm.bitmap
    ensures k.Valid() && k.Abs() == RootMapped(old(k.Abs())) && addr == Alloc(old(k.Abs()).pmm, 1).0 * 0x1000
    ensures HwFrame(k.mem, k.cr3, PageNo(addr / 0x1000)) == Some(addr / 0x1000)
  {
    ghost var s := k.Abs();
    MaskKeeps(k.Actual());
    addr := TakeFrames(k, 1);
    ghost var f := addr / 0x1000;
    RootAllocated(s, k.Abs(), f);
    MapRoot(k, addr, f);
  }

  /** create_user_pml4, from any address space that reaches the new root. */
  method CreateUserPml4(k: Kernel) returns (addr: nat)
    requires k.Valid() && CanCreate(k.Abs()) && Reaches(k, Alloc(k.Abs().pmm, 1).0)
    modifies k`mem, k`tables, k.pmm`lastIdx, k.pmm`lastBit, k.pmm`reserved, k.pmm.bitmap
    ensures k.Valid() && k.Abs() == Create(old(k.Abs())) && addr == Alloc(old(k.Abs()).pmm, 1).0 * 0x1000
  {
    ghost var s := k.Abs();
    MaskKeeps(k.Actual());
    addr := TakeRoot(k);
    ghost var f := addr / 0x1000;
    RootMappedEffect(s, Taken(s, 1), f, k.Abs());
    FillRoot(k, addr, f);
  }

  /** The loop over the new root's words and the shared entry. */
  method FillRoot(k: Kernel, addr: nat, ghost f: nat)
    requires k.Valid() && addr == f * 0x1000 && LOW <= f && f !in k.tables && f in k.pmm.View().reserved
    requires HwFrame(k.mem, k.cr3, PageNo(f)) == Some(f)
    modifies k`mem, k`tables
    ensures k.Valid() && k.Abs() == WithRoot(old(k.Abs()), f)
  {
    ghost var s2 := k.Abs();
    MaskKeeps(k.Actual());
    ClearRoot(k, addr, f, s2);
    FinishRoot(k, addr, f, s2);
  }

  method ClearRoot(k: Kernel, addr: nat, ghost f: nat, ghost s2: Space)
    requires k.Valid() && k.Abs() == s2 && addr == f * 0x1000 && f !in s2.tables && f in s2.pmm.reserved
    requires HwFrame(k.mem, k.cr3, PageNo(f)) == Some(f)
    modifies k`mem
    ensures k.Valid() && k.Abs() == s2.(mem := ClearWords(s2.mem, f, 512))
    ensures HwFrame(k.mem, k.cr3, PageNo(f)) == Some(f)
  {
    AddressOfFrame(f);
    for i := 1 to 512
      invariant k.Valid() && k.Abs() == s2.(mem := ClearWords(s2.mem, f, i))
      invariant HwFrame(k.mem, k.cr3, PageNo(f)) == Some(f)
    {
      StoreWord(k, addr / 0x1000, i, ZERO);
    }
  }

  method FinishRoot(k: Kernel, addr: nat, ghost f: nat, ghost s2: Space)
    requires k.Valid() && k.root == s2.kernel && addr == f * 0x1000 && LOW <= f
    requires Inv(s2) && f !in s2.tables && f in s2.pmm.reserved
    requires k.Abs() == s2.(mem := ClearWords(s2.mem, f, 512)) && HwFrame(k.mem, k.cr3, PageNo(f)) == Some(f)
    modifies k`mem, k`tables
    ensures k.Valid() && k.Abs() == WithRoot(s2, f)
  {
    AddressOfFrame(f);
    var e := k.LoadLow(k.root * 0x1000, 0, k.root);
    ClearWordsAt(s2.mem, f, 512, Loc(k.root, 0));
    MaskInner(k.Actual(), k.root, 0);
    StoreWord(k, addr / 0x1000, 0, e);
    AdoptRoot(k, f, s2);
  }

  /** The finished root counts as a table from here on. */
  ghost method AdoptRoot(k: Kernel, f: nat, s2: Space)
    requires k.Valid() && Inv(s2) && f !in s2.tables && f in s2.pmm.reserved && LOW <= f
    requires k.Abs() == s2.(mem := RootMem(s2.mem, f, s2.kernel))
    modifies k`tables
    ensures k.Valid() && k.Abs() == WithRoot(s2, f)
  {
    RootInActual(k.Actual(), s2, f);
    k.tables := k.tables[f := Node(4, Loc(f, 0))];
  }

  /** The invariant of the masked state gives that of the actual one. */
  lemma RootInActual(a: Space, s2: Space, f: nat)
    requires Inv(a) && Inv(s2) && f !in s2.tables && f in s2.pmm.reserved && LOW <= f
    requires Mask(a) == s2.(mem := RootMem(s2.mem, f, s2.kernel))
    ensures var b := a.(tables := a.tables[f := Node(4, Loc(f, 0))]);
      Inv(b) && Mask(b) == WithRoot(s2, f)
  {
    var b := a.(tables := a.tables[f := Node(4, Loc(f, 0))]);
    WindowLeaf(a);
    var w := WindowSlot(a.mem, a.kernel);
    forall i: Index ensures At(a.mem, Loc(f, i)) == if i == 0 then At(a.mem, Loc(a.kernel, 0)) else ZERO {
      assert At(Mask(a).mem, Loc(f, i)) == At(a.mem, Loc(f, i));
      MaskInner(a, a.kernel, 0);
      ClearWordsAt(s2.mem, f, 512, Loc(f, i));
      ClearWordsAt(s2.mem, f, 512, Loc(a.kernel, 0));
    }
    RootTree(a.mem, a.tables, a.kernel, f);
    assert forall g: nat :: Pinned(b, g) ==> Pinned(a, g);
  }
}
