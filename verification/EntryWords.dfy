/**
 Page-table entries as the 64-bit words of src/memory/paging.c: the frame's address with the flags
 of src/memory/paging.h in the twelve bits below it (section 4.5 of the Intel SDM, volume 3A).
 */
module EntryWords {
  import opened Wrappers
  import opened PageTables

  /** The word without its lowest `b` bits. */
  function WordFrom(e: Entry, b: nat): nat
    requires b <= 12
    decreases 12 - b, e
  {
    if b == 12 then e.frame else (if b in e.flags then 1 else 0) + 2 * WordFrom(e, b + 1)
  }

  /** frame | flags */
  function Word(e: Entry): nat {
    WordFrom(e, 0)
  }

  /** w >> b */
  function Shifted(w: nat, b: nat): nat
    decreases b, w
  {
    if b == 0 then w else Shifted(w / 2, b - 1)
  }

  lemma {:induction false} ShiftedWord(e: Entry, b: nat, n: nat)
    requires b + n <= 12
    ensures Shifted(WordFrom(e, b), n) == WordFrom(e, b + n)
    decreases n
  {
    if n > 0 {
      ShiftedWord(e, b + 1, n - 1);
    }
  }

  /** Bit `b` of the word is set exactly if the flag is there, and the bits above the flags are the
      frame. */
  lemma BitSet(e: Entry, b: nat)
    ensures b < 12 ==> (Shifted(Word(e), b) % 2 == 1 <==> b in e.flags)
    ensures Shifted(Word(e), 12) == e.frame
  {
    if b < 12 { BitAt(e, 0, b); }
    FrameAt(e, 0, 12);
  }

  lemma BitAt(e: Entry, z: nat, b: nat)
    requires z == 0 && b < 12
    ensures Shifted(WordFrom(e, z), b) % 2 == 1 <==> b in e.flags
  {
    ShiftedWord(e, z, b);
  }

  lemma FrameAt(e: Entry, z: nat, n: nat)
    requires z == 0 && n == 12
    ensures Shifted(WordFrom(e, z), n) == e.frame
  {
    ShiftedWord(e, z, n);
  }

  lemma {:induction false} ShiftOnce(w: nat, b: nat)
    ensures Shifted(w, b + 1) == Shifted(w, b) / 2
    decreases b
  {
    if b > 0 { ShiftOnce(w / 2, b - 1); }
  }

  /** Shifting is dividing. */
  lemma ShiftDivides(w: nat)
    ensures Shifted(w, 0) == w && Shifted(w, 1) == w / 2 && Shifted(w, 2) == w / 4
    ensures Shifted(w, 7) == w / 0x80 && Shifted(w, 12) == w / 0x1000
  {
    forall b: nat ensures Shifted(w, b + 1) == Shifted(w, b) / 2 { ShiftOnce(w, b); }
    assert Shifted(w, 1) == w / 2;
    assert Shifted(w, 2) == w / 4;
    assert Shifted(w, 3) == w / 8;
    assert Shifted(w, 4) == w / 0x10;
    assert Shifted(w, 5) == w / 0x20;
    assert Shifted(w, 6) == w / 0x40;
    assert Shifted(w, 7) == w / 0x80;
    assert Shifted(w, 8) == w / 0x100;
    assert Shifted(w, 9) == w / 0x200;
    assert Shifted(w, 10) == w / 0x400;
    assert Shifted(w, 11) == w / 0x800;
  }

  /** The bits the code and the processor look at: present is the word's lowest bit, writeable and
      user the next two, page size has the value 0x80; masking the low twelve gives the frame. */
  lemma WordBits(e: Entry)
    ensures Word(e) % 2 == 1 <==> Present(e)
    ensures Word(e) / 2 % 2 == 1 <==> WRITEABLE in e.flags
    ensures Word(e) / 4 % 2 == 1 <==> USER in e.flags
    ensures Word(e) / 0x80 % 2 == 1 <==> Huge(e)
    ensures Word(e) / 0x1000 == e.frame
  {
    BitSet(e, 0);
    BitSet(e, 1);
    BitSet(e, 2);
    BitSet(e, 7);
    ShiftDivides(Word(e));
  }

  /** The word of an entry with the lowest three flags only. */
  lemma LowFlags(e: Entry)
    requires forall b :: b in e.flags ==> b <= 2
    ensures Word(e) == e.frame * 0x1000 + (if 0 in e.flags then 1 else 0) + (if 1 in e.flags then 2 else 0)
                       + (if 2 in e.flags then 4 else 0)
  {
    NoFlags(e, 3);
    assert WordFrom(e, 2) == (if 2 in e.flags then 1 else 0) + 2 * WordFrom(e, 3);
    assert WordFrom(e, 1) == (if 1 in e.flags then 1 else 0) + 2 * WordFrom(e, 2);
  }

  lemma NoFlags(e: Entry, b: nat)
    requires b == 3 && forall i :: i in e.flags ==> i <= 2
    ensures WordFrom(e, b) == e.frame * 0x200
  {
    assert WordFrom(e, 11) == 2 * e.frame && WordFrom(e, 10) == 4 * e.frame && WordFrom(e, 9) == 8 * e.frame;
    assert WordFrom(e, 8) == 0x10 * e.frame && WordFrom(e, 7) == 0x20 * e.frame && WordFrom(e, 6) == 0x40 * e.frame;
    assert WordFrom(e, 5) == 0x80 * e.frame && WordFrom(e, 4) == 0x100 * e.frame;
  }

  /** Different entries have different words. */
  lemma WordInjective(a: Entry, b: Entry)
    requires Word(a) == Word(b)
    ensures a == b
  {
    BitSet(a, 12);
    BitSet(b, 12);
    forall i: nat | i < 12 ensures i in a.flags <==> i in b.flags {
      BitSet(a, i);
      BitSet(b, i);
    }
    assert forall i :: i in a.flags ==> i < 12 && i in b.flags;
    assert forall i :: i in b.flags ==> i < 12 && i in a.flags;
  }

  // ---------- the walk, address bit by address bit ----------

  /** The processor translates an address to frame `f` if and only if the four entries that bits
      47..39, 38..30, 29..21 and 20..12 select are present, the upper three are no large pages, and
      the last one names the frame. */
  lemma ProcessorWalk(m: Mem, root: nat, va: nat, f: nat)
    ensures HwFrame(m, root, PageOf(va)) == Some(f)
            <==> var e4 := At(m, Loc(root, va / 0x80_0000_0000 % 512));
                 var e3 := At(m, Loc(e4.frame, va / 0x4000_0000 % 512));
                 var e2 := At(m, Loc(e3.frame, va / 0x20_0000 % 512));
                 var e1 := At(m, Loc(e2.frame, va / 0x1000 % 512));
                 && Word(e4) % 2 == 1 && Word(e4) / 0x80 % 2 == 0 && Word(e3) % 2 == 1 && Word(e3) / 0x80 % 2 == 0
                 && Word(e2) % 2 == 1 && Word(e2) / 0x80 % 2 == 0 && Word(e1) % 2 == 1 && Word(e1) / 0x1000 == f
  {
    var p := PageOf(va);
    var e4 := At(m, Loc(root, p.i4));
    var e3 := At(m, Loc(e4.frame, p.i3));
    var e2 := At(m, Loc(e3.frame, p.i2));
    var e1 := At(m, Loc(e2.frame, p.i1));
    WordBits(e4);
    WordBits(e3);
    WordBits(e2);
    WordBits(e1);
    WalkFour(m, root, p, e4, e3, e2, e1);
  }

  lemma WalkFour(m: Mem, root: nat, p: Page, e4: Entry, e3: Entry, e2: Entry, e1: Entry)
    requires e4 == At(m, Loc(root, p.i4)) && e3 == At(m, Loc(e4.frame, p.i3))
    requires e2 == At(m, Loc(e3.frame, p.i2)) && e1 == At(m, Loc(e2.frame, p.i1))
    ensures HwFrame(m, root, p)
            == if Present(e4) && !Huge(e4) && Present(e3) && !Huge(e3) && Present(e2) && !Huge(e2) && Present(e1)
               then Some(e1.frame) else None
  {
    assert HwLeaf(m, e2.frame, 1, p) == Some(Loc(e2.frame, p.i1));
    assert HwLeaf(m, e3.frame, 2, p) == if Present(e2) && !Huge(e2) then HwLeaf(m, e2.frame, 1, p) else None;
    assert HwLeaf(m, e4.frame, 3, p) == if Present(e3) && !Huge(e3) then HwLeaf(m, e3.frame, 2, p) else None;
    assert HwLeaf(m, root, 4, p) == if Present(e4) && !Huge(e4) then HwLeaf(m, e4.frame, 3, p) else None;
  }
}
