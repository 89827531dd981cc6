/**
 The page-table code of src/memory/paging.c as it runs: every table word is read and written
 through a virtual pointer that the processor translates with the very tables being edited,
 and tables above 8 MiB are reached through the one window page.
 */
module AddressSpaces {
  import opened Wrappers
  import opened PageTables
  import opened Mapping
  import opened Windowed
  import FrameAllocator

  class Kernel {
    const pmm: FrameAllocator.Allocator
    const root: nat          // frame of s_pml4_table
    var mem: Mem
    var cr3: nat             // frame of the active root table
    ghost var tables: Tables

    /** init_paging: adopts the tables the boot loader left in cr3. */
    constructor (allocator: FrameAllocator.Allocator, physical: Mem, bootRoot: nat, ghost bootTables: Tables)
      requires allocator.Valid() && Inv(Space(physical, allocator.View(), bootTables, bootRoot))
      ensures Valid() && pmm == allocator && root == cr3 == bootRoot && mem == physical && tables == bootTables
    {
      pmm, root, mem, cr3, tables := allocator, bootRoot, physical, bootRoot, bootTables;
    }

    ghost predicate Valid()
      reads this, pmm, pmm.bitmap
    {
      pmm.Valid() && Inv(Actual()) && IsRoot(Actual(), cr3)
    }

    /** The state with the real contents of the window's entry. */
    ghost function Actual(): Space
      reads this, pmm
    {
      Space(mem, pmm.View(), tables, root)
    }

    /** The state up to the window's entry. */
    ghost function Abs(): Space
      reads this, pmm
    {
      Mask(Actual())
    }

    /** The pointer denotes the slot in the active address space; following it cannot fault. */
    ghost predicate Denotes(ptr: nat, l: Loc)
      reads this
    {
      Resolve(mem, cr3, ptr) == Some(l)
    }

    /** `ptr` is where table `c` can be accessed: at its own low address or in the window. */
    ghost predicate Based(ptr: nat, c: nat)
      reads this
    {
      c in tables &&
      (ptr == c * 0x1000 || (ptr == WINDOW_ADDR && At(mem, WindowSlot(mem, root)) == WindowEntry(c)))
    }

    /** A read through a virtual pointer. */
    method Load(ptr: nat) returns (e: Entry)
      requires Resolve(mem, cr3, ptr).Some?
      ensures e == At(mem, Resolve(mem, cr3, ptr).value)
    {
      e := At(mem, Resolve(mem, cr3, ptr).value);
    }

    /** A write through a virtual pointer. */
    method Store(ptr: nat, e: Entry)
      requires Resolve(mem, cr3, ptr).Some?
      modifies this`mem
      ensures mem == old(mem)[old(Resolve(mem, cr3, ptr).value) := e]
    {
      mem := mem[Resolve(mem, cr3, ptr).value := e];
    }

    /** Entry `i` of a table below 8 MiB, read at the table's own address. */
    method LoadLow(table: nat, i: nat, ghost t: nat) returns (e: Entry)
      requires Valid() && t in tables && t < LOW && table == t * 0x1000 && i < 512
      ensures e == At(mem, Loc(t, i))
    {
      ResolveLow(Actual(), cr3, t, i);
      e := Load(table + 8 * i);
    }

    /** get_temp_entry: follows the low tables down to the entry of the window page. */
    method GetTempEntry() returns (ptr: nat)
      requires Valid()
      ensures Denotes(ptr, WindowSlot(mem, root))
    {
      WindowTables(Actual());
      var p := PageOf(WINDOW_ADDR);
      var e3 := LoadLow(root * 0x1000, p.i4, root);
      var e2 := LoadLow(e3.frame * 0x1000, p.i3, e3.frame);
      var e1 := LoadLow(e2.frame * 0x1000, p.i2, e2.frame);
      ResolveLow(Actual(), cr3, e1.frame, p.i1);
      ptr := e1.frame * 0x1000 + 8 * p.i1;
    }

    /** tmp_map: points the window at a physical address. */
    method TmpMap(phys: nat) returns (ptr: nat)
      requires Valid()
      modifies this`mem
      ensures Valid() && Abs() == old(Abs()) && WindowSlot(mem, root) == old(WindowSlot(mem, root))
      ensures At(mem, WindowSlot(mem, root)) == WindowEntry(phys / 0x1000) == Entry(phys / 0x1000, {0, 1})
      ensures ptr == WINDOW_ADDR + phys % 0x1000 == 0x20_0000 + phys % 0x1000
    {
      var entry := GetTempEntry();
      Remap(Actual(), WindowEntry(phys / 0x1000));
      Store(entry, WindowEntry(phys / 0x1000));
      ptr := WINDOW_ADDR + phys % 0x1000;
    }

    /** valid_pointer: an address from 8 MiB up is taken as physical and put into the window. */
    method ValidPointer(ptr: nat) returns (ptr': nat)
      requires Valid()
      modifies this`mem
      ensures Valid() && Abs() == old(Abs()) && WindowSlot(mem, root) == old(WindowSlot(mem, root))
      ensures ptr < 0x800000 ==> ptr' == ptr && mem == old(mem)
      ensures ptr >= 0x800000 ==>
                ptr' == WINDOW_ADDR + ptr % 0x1000 && At(mem, WindowSlot(mem, root)) == WindowEntry(ptr / 0x1000)
    {
      if ptr >= 0x800000 {
        ptr' := TmpMap(ptr);
      } else {
        ptr' := ptr;
      }
    }

    /** The pointer to a table word, made followable. */
    method EntryPointer(base: nat, i: nat, ghost t: nat) returns (ptr: nat)
      requires Valid() && i < 512 && Based(base, t)
      modifies this`mem
      ensures Valid() && Abs() == old(Abs())
      ensures Denotes(ptr, Loc(t, i))
    {
      ptr := ValidPointer(base + 8 * i);
      PointerShape(Actual(), cr3, old(mem), base, i, t, ptr);
    }

    /** A link that is not present gets the new flags. */
    method MarkLink(entry: nat, e: Entry, flags: Flags, ghost t: nat, ghost i: Index)
      requires Valid() && Denotes(entry, Loc(t, i)) && t in tables && tables[t].level >= 2
      requires e == At(mem, Loc(t, i)) && e.frame != 0 && HUGE !in flags
      modifies this`mem
      ensures Valid() && e.frame in tables
      ensures EnsureTable(old(Abs()), t, tables[t].level, i, flags) == (Abs(), e.frame)
    {
      ghost var s := Actual();
      EnsureOld(s, t, i, flags);
      MaskEnsure(s, t, i, flags);
      if !Present(e) {
        Store(entry, Entry(e.frame, e.flags + flags));
      }
      assert Actual() == EnsureTable(s, t, s.tables[t].level, i, flags).0;
    }

    /** valid_pointer on the address of a table. */
    method OpenTable(c: nat) returns (ptr: nat)
      requires Valid() && c in tables
      modifies this`mem
      ensures Valid() && Abs() == old(Abs()) && Based(ptr, c) && ptr < 0x800000
    {
      AddressOfFrame(c);
      ptr := ValidPointer(c * 0x1000);
    }

    /** Takes a frame and links it at the entry. */
    method LinkFrame(entry: nat, flags: Flags, ghost t: nat, ghost i: Index, ghost level: nat) returns (table: nat)
      requires pmm.Valid() && Denotes(entry, Loc(t, i)) && At(mem, Loc(t, i)).frame == 0 && level >= 2
      modifies this`mem, this`tables, pmm`lastIdx, pmm`lastBit, pmm`reserved, pmm.bitmap
      ensures pmm.Valid()
      ensures EnsureTable(old(Actual()), t, level, i, flags) == (Actual(), table / 0x1000) && table % 0x1000 == 0
    {
      table := pmm.AllocFrames(1);
      Store(entry, Entry(table / 0x1000, flags));
      tables := tables[table / 0x1000 := Node(level - 1, Canon(root, level, t, i))];
    }

    /** create_table: takes a frame, links it at the entry, and opens it in the window. */
    method CreateTable(entry: nat, flags: Flags, ghost t: nat, ghost i: Index) returns (ptr: nat)
      requires Valid() && Denotes(entry, Loc(t, i)) && t in tables && tables[t].level >= 2
      requires At(mem, Loc(t, i)).frame == 0 && HUGE !in flags && CanEnsure(Abs(), t, tables[t].level, i)
      modifies this`mem, this`tables, pmm`lastIdx, pmm`lastBit, pmm`reserved, pmm.bitmap
      ensures Valid()
      ensures var (s', c) := EnsureTable(old(Abs()), t, old(tables[t].level), i, flags);
        Abs() == s' && Based(ptr, c) && ptr < 0x800000
    {
      ghost var s := Actual();
      MaskCanEnsure(s, t, i);
      EnsureNew(s, t, i, flags);
      MaskEnsure(s, t, i, flags);
      var table := LinkFrame(entry, flags, t, i, s.tables[t].level);
      ptr := TmpMap(table);
    }

    /** Reads entry `i` of table `t` and decides whether it leads to a table.  Every table is
        reserved, so the allocator is never taken to have freed one. */
    method ReadLink(base: nat, i: nat, ghost t: nat) returns (entry: nat, e: Entry, absent: bool)
      requires Valid() && i < 512 && Based(base, t) && tables[t].level >= 2
      modifies this`mem
      ensures Valid() && Abs() == old(Abs())
      ensures Denotes(entry, Loc(t, i)) && e == At(mem, Loc(t, i)) == old(At(mem, Loc(t, i)))
      ensures absent <==> e.frame == 0
      ensures !absent ==> e.frame in tables && tables[e.frame].level == tables[t].level - 1
    {
      ghost var s0 := Actual();
      entry := EntryPointer(base, i, t);
      SameMask(s0, Actual(), t, i);
      e := Load(entry);
      absent := e.frame == 0;
      if !absent {
        AddressOfFrame(e.frame);
        absent := pmm.IsFree(e.frame * 0x1000);
      }
    }

    /** The branches on a link already read: create, give up, or follow. */
    method FollowLink(entry: nat, e: Entry, absent: bool, flags: Option<Flags>, ghost t: nat, ghost i: Index)
      returns (ptr: nat)
      requires Valid() && Denotes(entry, Loc(t, i)) && t in tables && tables[t].level >= 2
      requires e == At(mem, Loc(t, i)) && (absent <==> e.frame == 0) && (!absent ==> e.frame in tables)
      requires flags.Some? ==> HUGE !in flags.value && CanEnsure(Abs(), t, tables[t].level, i)
      modifies this`mem, this`tables, pmm`lastIdx, pmm`lastBit, pmm`reserved, pmm.bitmap
      ensures Valid()
      ensures flags.Some? ==> var (s', c) := EnsureTable(old(Abs()), t, old(tables[t].level), i, flags.value);
        Abs() == s' && Based(ptr, c) && ptr < 0x800000
      ensures flags.None? ==> Abs() == old(Abs()) && (ptr == 0 <==> absent)
      ensures flags.None? && !absent ==> Based(ptr, e.frame) && ptr < 0x800000
    {
      if absent {
        if flags.Some? {
          ptr := CreateTable(entry, flags.value, t, i);
        } else {
          ptr := 0;
        }
        return;
      }
      if flags.Some? {
        MarkLink(entry, e, flags.value, t, i);
      }
      ptr := OpenTable(e.frame);
    }

    /** get_table_from_entry: the table behind entry `i` of table `t`. */
    method GetTable(base: nat, i: nat, flags: Option<Flags>, ghost t: nat) returns (ptr: nat)
      requires Valid() && i < 512 && Based(base, t) && tables[t].level >= 2
      requires flags.Some? ==> HUGE !in flags.value && CanEnsure(Abs(), t, tables[t].level, i)
      modifies this`mem, this`tables, pmm`lastIdx, pmm`lastBit, pmm`reserved, pmm.bitmap
      ensures Valid()
      ensures flags.Some? ==> var (s', c) := EnsureTable(old(Abs()), t, old(tables[t].level), i, flags.value);
        Abs() == s' && Based(ptr, c) && ptr < 0x800000
      ensures flags.None? ==> Abs() == old(Abs()) && (ptr == 0 <==> old(At(mem, Loc(t, i)).frame) == 0)
      ensures flags.None? && ptr != 0 ==> Based(ptr, old(At(mem, Loc(t, i)).frame)) && ptr < 0x800000
    {
      var entry, e, absent := ReadLink(base, i, t);
      ptr := FollowLink(entry, e, absent, flags, t, i);
    }

    /** One level of a creating walk, against the reference walk. */
    method EnsureNext(base: nat, i: nat, flags: Flags, ghost t: nat, ghost p: Page) returns (ptr: nat, ghost c: nat)
      requires Valid() && Based(base, t) && tables[t].level >= 2 && i == Idx(p, tables[t].level)
      requires CanMap(Abs(), t, tables[t].level, p, flags)
      modifies this`mem, this`tables, pmm`lastIdx, pmm`lastBit, pmm`reserved, pmm.bitmap
      ensures Valid() && Based(ptr, c) && ptr < 0x800000 && tables[c].level == old(tables[t].level) - 1
      ensures CanMap(Abs(), c, tables[c].level, p, flags)
      ensures (Abs(), c) == EnsureTable(old(Abs()), t, old(tables[t].level), i, flags)
      ensures c != 0 && At(Abs().mem, Loc(t, i)).frame == c && t in tables && tables[t] == old(tables[t])
    {
      ghost var s := Actual();
      MaskKeeps(s);
      MaskInner(s, t, i);
      EnsureStep(Mask(s), t, p, flags);
      c := EnsureTable(Mask(s), t, s.tables[t].level, i, flags).1;
      ptr := GetTable(base, i, Some(flags), t);
    }

    /** One level of a walk that only looks. */
    method LookupNext(base: nat, i: nat, ghost t: nat, ghost p: Page) returns (ptr: nat, ghost c: nat)
      requires Valid() && Based(base, t) && tables[t].level >= 2 && i == Idx(p, tables[t].level)
      modifies this`mem, this`tables, pmm`lastIdx, pmm`lastBit, pmm`reserved, pmm.bitmap
      ensures Valid() && Abs() == old(Abs())
      ensures ptr == 0 ==> Leaf(Abs().mem, t, tables[t].level, p) == None
      ensures ptr != 0 ==>
                && Based(ptr, c) && ptr < 0x800000 && tables[c].level == tables[t].level - 1
                && Leaf(Abs().mem, t, tables[t].level, p) == Leaf(Abs().mem, c, tables[c].level, p)
    {
      ghost var s := Actual();
      MaskInner(s, t, i);
      assert SlotOk(s.mem, s.tables, s.kernel, t, i);
      c := At(s.mem, Loc(t, i)).frame;
      ptr := GetTable(base, i, None, t);
    }

    /** The word of a leaf table just opened. */
    method LeafPointer(pt: nat, i: nat, ghost c: nat, ghost p: Page) returns (ptr: nat)
      requires Valid() && Based(pt, c) && pt < 0x800000 && tables[c].level == 1 && i == p.i1
      ensures Leaf(Abs().mem, c, 1, p) == Some(Loc(c, i)) && Denotes(ptr, Loc(c, i)) && ptr != 0
    {
      ptr := pt + 8 * i;
      PointerShape(Actual(), cr3, mem, pt, i, c, ptr);
    }

    /** get_entry: the leaf word of a page, its tables created where missing. */
    method GetEntry(rootPtr: nat, flags: Flags, p: Page, ghost r: nat) returns (ptr: nat)
      requires Valid() && rootPtr == r * 0x1000 && IsRoot(Abs(), r)
      requires CanMap(Abs(), r, 4, p, flags)
      modifies this`mem, this`tables, pmm`lastIdx, pmm`lastBit, pmm`reserved, pmm.bitmap
      ensures Valid() && Abs() == MapPath(old(Abs()), r, 4, p, flags) && ptr != 0
      ensures var l := Leaf(Abs().mem, r, 4, p); l.Some? && Denotes(ptr, l.value)
    {
      ghost var s0 := Abs();
      var pdp, c3 := EnsureNext(rootPtr, p.i4, flags, r, p);
      ghost var s1 := Abs();
      MaskKeeps(Actual());
      ptr := EnsureBelow(pdp, flags, c3, p);
      assert MapPath(s0, r, 4, p, flags) == MapPath(s1, c3, 3, p, flags);
      LeafBelow(s1, r, 4, c3, p, flags);
    }

    /** The two lower levels of get_entry. */
    method EnsureBelow(pdp: nat, flags: Flags, ghost c3: nat, p: Page) returns (ptr: nat)
      requires Valid() && Based(pdp, c3) && tables[c3].level == 3
      requires CanMap(Abs(), c3, 3, p, flags)
      modifies this`mem, this`tables, pmm`lastIdx, pmm`lastBit, pmm`reserved, pmm.bitmap
      ensures Valid() && Abs() == MapPath(old(Abs()), c3, 3, p, flags) && ptr != 0
      ensures var l := Leaf(Abs().mem, c3, 3, p); l.Some? && Denotes(ptr, l.value)
    {
      ghost var s1 := Abs();
      MaskKeeps(Actual());
      var pd, c2 := EnsureNext(pdp, p.i3, flags, c3, p);
      ghost var s2 := Abs();
      var pt, c1 := EnsureNext(pd, p.i2, flags, c2, p);
      ghost var s3 := Abs();
      ptr := LeafPointer(pt, p.i1, c1, p);
      MapPathTwo(s1, c3, p, flags, s2, c2, s3, c1);
    }

    /** lookup_entry: the leaf word of a page, or null. */
    method LookupEntry(rootPtr: nat, p: Page, ghost r: nat) returns (ptr: nat)
      requires Valid() && rootPtr == r * 0x1000 && IsRoot(Abs(), r)
      modifies this`mem, this`tables, pmm`lastIdx, pmm`lastBit, pmm`reserved, pmm.bitmap
      ensures Valid() && Abs() == old(Abs())
      ensures var l := Leaf(Abs().mem, r, 4, p);
        (ptr == 0 <==> l == None) && (ptr != 0 ==> Denotes(ptr, l.value))
    {
      ghost var m := Abs().mem;
      var pdp, c3 := LookupNext(rootPtr, p.i4, r, p);
      if pdp == 0 { return 0; }
      assert Leaf(m, r, 4, p) == Leaf(m, c3, 3, p);
      ptr := LookupBelow(pdp, c3, p);
    }

    /** The two lower levels of lookup_entry. */
    method LookupBelow(pdp: nat, ghost c3: nat, p: Page) returns (ptr: nat)
      requires Valid() && Based(pdp, c3) && tables[c3].level == 3
      modifies this`mem, this`tables, pmm`lastIdx, pmm`lastBit, pmm`reserved, pmm.bitmap
      ensures Valid() && Abs() == old(Abs())
      ensures var l := Leaf(Abs().mem, c3, 3, p);
        (ptr == 0 <==> l == None) && (ptr != 0 ==> Denotes(ptr, l.value))
    {
      var pd, c2 := LookupNext(pdp, p.i3, c3, p);
      if pd == 0 { return 0; }
      var pt, c1 := LookupNext(pd, p.i2, c2, p);
      if pt == 0 { return 0; }
      ptr := LeafPointer(pt, p.i1, c1, p);
    }

    /** The final write of map and unmap, through the pointer the walk returned. */
    method StoreLeaf(entry: nat, e: Entry, ghost l: Loc, ghost r: nat, ghost p: Page)
      requires Valid() && IsRoot(Abs(), r) && Mappable(Abs(), p)
      requires Leaf(Abs().mem, r, 4, p) == Some(l) && Denotes(entry, l)
      modifies this`mem
      ensures Valid() && Abs() == old(Abs()).(mem := old(Abs()).mem[l := e])
    {
      MaskStore(Actual(), r, p, l, e);
      Store(entry, e);
    }

    /** map */
    method MapFrame(rootPtr: nat, page: nat, frame: nat, flags: Flags, ghost r: nat)
      requires Valid() && rootPtr == r * 0x1000 && frame % 0x1000 == 0
      requires MapReady(Abs(), r, PageOf(page), flags)
      modifies this`mem, this`tables, pmm`lastIdx, pmm`lastBit, pmm`reserved, pmm.bitmap
      ensures Valid() && Abs() == Map(old(Abs()), r, PageOf(page), Entry(frame / 0x1000, flags))
    {
      ghost var p := PageOf(page);
      MapGrows(Abs(), r, p, flags);
      var entry := GetEntry(rootPtr, flags, PageOf(page), r);
      if entry != 0 {
        StoreLeaf(entry, Entry(frame / 0x1000, flags), Leaf(Abs().mem, r, 4, p).value, r, p);
      }
    }

    /** unmap */
    method UnmapPage(rootPtr: nat, page: nat, ghost r: nat)
      requires Valid() && rootPtr == r * 0x1000 && IsRoot(Abs(), r) && Mappable(Abs(), PageOf(page))
      modifies this`mem, this`tables, pmm`lastIdx, pmm`lastBit, pmm`reserved, pmm.bitmap
      ensures Valid() && Abs() == Unmap(old(Abs()), r, PageOf(page))
    {
      var entry := LookupEntry(rootPtr, PageOf(page), r);
      if entry != 0 {
        StoreLeaf(entry, ZERO, Leaf(Abs().mem, r, 4, PageOf(page)).value, r, PageOf(page));
      }
    }

    /** to_phys / to_usr_phys: null for a page without a present entry. */
    method ToPhys(rootPtr: nat, va: nat, ghost r: nat) returns (phys: nat)
      requires Valid() && rootPtr == r * 0x1000 && IsRoot(Abs(), r) && PageOf(va) != WINDOW
      modifies this`mem, this`tables, pmm`lastIdx, pmm`lastBit, pmm`reserved, pmm.bitmap
      ensures Valid() && Abs() == old(Abs())
      ensures phys == match Translate(Abs().mem, r, PageOf(va)) case None => 0 case Some(f) => f * 0x1000 + va % 0x1000
    {
      var p := PageOf(va);
      var entry := LookupEntry(rootPtr, p, r);
      ReadLeaf(Actual(), r, p);
      if entry == 0 { return 0; }
      var e := Load(entry);
      if !Present(e) { return 0; }
      phys := e.frame * 0x1000 + va % 0x1000;
    }
  }

  /** A leaf store commutes with the mask. */
  lemma MaskStore(s: Space, r: nat, p: Page, l: Loc, e: Entry)
    requires Inv(s) && IsRoot(s, r) && Mappable(Mask(s), p) && Leaf(Mask(s).mem, r, 4, p) == Some(l)
    ensures var s' := s.(mem := s.mem[l := e]);
      Inv(s') && Mask(s') == Mask(s).(mem := Mask(s).mem[l := e])
  {
    var w := WindowSlot(s.mem, s.kernel);
    MaskLeaf(s, r, p);
    assert Unpinned(s, p) by {
      forall f: nat | Pinned(s, f) ensures p != LowPage(f) { assert Pinned(Mask(s), f); }
    }
    StoreLeafKeeps(s, r, p, l, e);
    LeafIsNotWindow(s, r, p);
    LeafLevel(s.mem, s.tables, s.kernel, r, p);
    WindowFixed(s, l, e);
    assert s.mem[l := e][w := ZERO] == s.mem[w := ZERO][l := e];
  }

  /** Reading the leaf entry of a page other than the window. */
  lemma ReadLeaf(s: Space, r: nat, p: Page)
    requires Inv(s) && IsRoot(s, r) && p != WINDOW
    ensures var l := Leaf(Mask(s).mem, r, 4, p);
      LeafEntry(Mask(s).mem, r, 4, p) == if l.Some? then At(s.mem, l.value) else ZERO
  {
    MaskKeeps(s);
    MaskLeaf(s, r, p);
    LeafIsNotWindow(s, r, p);
    if Leaf(s.mem, r, 4, p).Some? {
      LeafLevel(Mask(s).mem, s.tables, s.kernel, r, p);
    } else {
      LeafNone(Mask(s).mem, r, 4, p);
    }
  }

  lemma MapGrows(s: Space, r: nat, p: Page, flags: Flags)
    requires MapReady(s, r, p, flags)
    ensures var s1 := MapPath(s, r, 4, p, flags); IsRoot(s1, r) && Mappable(s1, p)
  {
    MapPathGrows(s, r, 4, p, flags);
    MappableGrown(s, MapPath(s, r, 4, p, flags), p);
  }

  /** Two steps make the lower part of the reference walk. */
  lemma MapPathTwo(s1: Space, c3: nat, p: Page, flags: Flags, s2: Space, c2: nat, s3: Space, c1: nat)
    requires Inv(s1) && c3 in s1.tables && s1.tables[c3].level == 3 && CanMap(s1, c3, 3, p, flags)
    requires (s2, c2) == EnsureTable(s1, c3, 3, p.i3, flags)
    requires (s3, c1) == EnsureTable(s2, c2, 2, p.i2, flags)
    ensures MapPath(s1, c3, 3, p, flags) == s3
    ensures Leaf(s3.mem, c3, 3, p) == Leaf(s3.mem, c1, 1, p)
  {
    EnsureStep(s1, c3, p, flags);
    assert MapPath(s1, c3, 3, p, flags) == MapPath(s2, c2, 2, p, flags);
    LeafBelow(s2, c3, 3, c2, p, flags);
    EnsureStep(s2, c2, p, flags);
    assert MapPath(s2, c2, 2, p, flags) == MapPath(s3, c1, 1, p, flags);
    LeafBelow(s3, c2, 2, c1, p, flags);
  }

  /** Once linked, the rest of the walk goes through the child. */
  lemma LeafBelow(s: Space, t: nat, level: nat, c: nat, p: Page, flags: Flags)
    requires Inv(s) && t in s.tables && s.tables[t].level == level >= 2
    requires c in s.tables && s.tables[c].level == level - 1 && c != 0 && At(s.mem, Loc(t, Idx(p, level))).frame == c
    requires CanMap(s, c, level - 1, p, flags)
    ensures var m := MapPath(s, c, level - 1, p, flags).mem; Leaf(m, t, level, p) == Leaf(m, c, level - 1, p)
  {
    MapPathLink(s, c, level - 1, p, flags, Loc(t, Idx(p, level)));
  }

  /** Two states that differ in the window only agree on inner tables and on the free frames. */
  lemma SameMask(s: Space, s': Space, t: nat, i: Index)
    requires Inv(s) && Inv(s') && Mask(s) == Mask(s') && t in s.tables && s.tables[t].level >= 2
    ensures At(s'.mem, Loc(t, i)) == At(s.mem, Loc(t, i))
    ensures At(s.mem, Loc(t, i)).frame != 0 ==>
              var c := At(s.mem, Loc(t, i)).frame;
              c in s.tables && s.tables[c].level == s.tables[t].level - 1 && c in s.pmm.reserved && c < s.pmm.frames
  {
    MaskInner(s, t, i);
    MaskInner(s', t, i);
    MaskKeeps(s);
    MaskKeeps(s');
    assert SlotOk(s.mem, s.tables, s.kernel, t, i);
  }

  lemma AddressOfFrame(c: nat)
    ensures c * 0x1000 / 0x1000 == c && c * 0x1000 % 0x1000 == 0
  {
  }

  /** The tables above the window's entry, and that entry's own table, are low tables. */
  lemma WindowTables(s: Space)
    requires Inv(s)
    ensures PageOf(WINDOW_ADDR) == WINDOW && s.kernel in s.tables && s.kernel < LOW
    ensures var t3 := At(s.mem, Loc(s.kernel, 0)).frame;
      var t2 := At(s.mem, Loc(t3, 0)).frame;
      var t1 := At(s.mem, Loc(t2, 1)).frame;
      && t3 in s.tables && t3 < LOW && t2 in s.tables && t2 < LOW && t1 in s.tables && t1 < LOW
      && WindowSlot(s.mem, s.kernel) == Loc(t1, 0)
  {
    var m, k := s.mem, s.kernel;
    assert SlotOk(m, s.tables, k, k, 0);
    var t3 := At(m, Loc(k, 0)).frame;
    assert SlotOk(m, s.tables, k, t3, 0);
    assert SlotOk(m, s.tables, k, At(m, Loc(t3, 0)).frame, 1);
  }

  /** What valid_pointer returns for a word of table `t` denotes that word. */
  lemma PointerShape(s: Space, cr3: nat, before: Mem, base: nat, i: Index, t: nat, ptr: nat)
    requires Inv(s) && IsRoot(s, cr3) && t in s.tables
    requires base == t * 0x1000 || (base == WINDOW_ADDR && At(before, WindowSlot(s.mem, s.kernel)) == WindowEntry(t))
    requires base + 8 * i < 0x800000 ==> ptr == base + 8 * i && s.mem == before
    requires base + 8 * i >= 0x800000 ==>
               && ptr == WINDOW_ADDR + (base + 8 * i) % 0x1000
               && At(s.mem, WindowSlot(s.mem, s.kernel)) == WindowEntry((base + 8 * i) / 0x1000)
    ensures Resolve(s.mem, cr3, ptr) == Some(Loc(t, i))
  {
    if base != t * 0x1000 {
      ResolveWindow(s, cr3, t, i);
    } else if t < LOW {
      ResolveLow(s, cr3, t, i);
    } else {
      ResolveWindow(s, cr3, t, i);
    }
  }
}
