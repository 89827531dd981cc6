/**
 The physical frame allocator of src/memory/phys.c on its byte array.
 */
module FrameAllocator {
  import opened Wrappers
  import opened Frames
  import opened Bitmap

  /** Number of frames a request of `size` bytes covers. */
  function Pages(size: nat): nat {
    if size == 0 then 0 else (size - 1) / 4096 + 1
  }

  /** No 32-bit quantity of a request inside the backing array wraps. */
  lemma RequestShape(f: nat, p: nat, len: nat)
    requires 0 < p < 0x1_0000_0000 && len < 0x1_0000_0000 && f + p <= 8 * (len - 1)
    ensures p % 0x1_0000_0000 == p && f / 8 % 0x1_0000_0000 == f / 8
    ensures (f / 8 + p / 8) % 0x1_0000_0000 == f / 8 + p / 8 < len
    ensures p % 8 != 0 ==> f / 8 + p / 8 + 1 < len
    ensures 8 * (f / 8) + f % 8 == f
    ensures 8 * (f / 8 + p / 8) + f % 8 + p % 8 == f + p
  {
  }

  lemma RunShape(s: nat, n: nat)
    requires n > 0
    ensures s * 4096 / 4096 == s && Pages(n * 4096) == n
  {
  }

  type BitIndex = i: nat | i < 8 witness 7

  class Allocator {
    var bitmap: array<bv8>
    var size: nat     // in bytes; the backing array is longer
    var lastIdx: nat
    var lastBit: BitIndex
    ghost var reserved: set<nat>

    constructor (backing: array<bv8>, n: nat, ghost marked: set<nat>)
      requires n < backing.Length && 8 * backing.Length < 0x1_0000_0000 && Ties(backing[..], 8 * n, marked)
      ensures Valid() && bitmap == backing && size == n && View() == Pmm(8 * n, marked, 0)
    {
      bitmap, size, lastIdx, lastBit, reserved := backing, n, 0, 7, marked;
    }

    ghost predicate Valid()
      reads this, bitmap
    {
      size < bitmap.Length && 8 * bitmap.Length < 0x1_0000_0000 && Ties(bitmap[..], 8 * size, reserved)
    }

    /** The abstract allocator state. */
    ghost function View(): Pmm
      reads this
    {
      Pmm(8 * size, reserved, 8 * lastIdx + 7 - lastBit)
    }

    /** The request stays inside the backing array, one slack byte left over. */
    ghost predicate Fits(start: nat, bytes: nat)
      reads this
    {
      start / 4096 + Pages(bytes) <= 8 * (bitmap.Length - 1)
    }

    /** One `|=` of a block with a mask. */
    method OrByte(i: nat, mask: bv8, ghost lo: nat, ghost hi: nat)
      requires i < bitmap.Length && hi <= 8 && Spans(mask, lo, hi)
      modifies bitmap
      ensures Painted(old(bitmap[..]), bitmap[..], 8 * i + lo, 8 * i + hi, true)
    {
      var from := bitmap[i];
      var b := from | mask;
      OrSpan(from, mask, b, lo, hi);
      bitmap[i] := b;
      PaintAt(old(bitmap[..]), bitmap[..], i, lo, hi, true);
    }

    /** One `&= ~` of a block with a mask. */
    method ClearByte(i: nat, mask: bv8, ghost lo: nat, ghost hi: nat)
      requires i < bitmap.Length && hi <= 8 && Spans(mask, lo, hi)
      modifies bitmap
      ensures Painted(old(bitmap[..]), bitmap[..], 8 * i + lo, 8 * i + hi, false)
    {
      var from := bitmap[i];
      var b := from & !mask;
      ClearSpan(from, mask, b, lo, hi);
      bitmap[i] := b;
      PaintAt(old(bitmap[..]), bitmap[..], i, lo, hi, false);
    }

    /** The whole blocks of a request; the shifted tail only from two blocks on. */
    method ReserveBlocks(startBlock: nat, offset: nat, blocks: nat)
      requires offset < 8 && 0 < blocks && startBlock + blocks < bitmap.Length
      modifies bitmap
      ensures Painted(old(bitmap[..]), bitmap[..], 8 * startBlock + offset,
                      8 * (startBlock + blocks) + (if blocks > 1 then offset else 0), true)
    {
      ghost var s0 := bitmap[..];
      ghost var f := 8 * startBlock + offset;
      HeadMask(offset);
      OrByte(startBlock, (0xff as bv8) >> offset, offset, 8);
      for i := startBlock + 1 to startBlock + blocks
        invariant Painted(s0, bitmap[..], f, 8 * i, true)
      {
        ghost var s := bitmap[..];
        PaintBlock(s, s[i := 0xff], i, true);
        bitmap[i] := 0xff;
        assert bitmap[..] == s[i := 0xff];
        PaintJoin(s0, s, bitmap[..], f, 8 * i, 8 * (i + 1), true);
      }
      if blocks > 1 {
        ghost var s := bitmap[..];
        TailMask(offset);
        OrByte(startBlock + blocks, (0xff as bv8) << (8 - offset), 0, offset);
        PaintJoin(s0, s, bitmap[..], f, 8 * (startBlock + blocks), 8 * (startBlock + blocks) + offset, true);
      }
    }

    /** The last, incomplete block of a request, spread over two bytes. */
    method ReserveRest(endBlock: nat, offset: nat, rest: nat)
      requires offset < 8 && 0 < rest < 8 && endBlock + 1 < bitmap.Length
      modifies bitmap
      ensures Painted(old(bitmap[..]), bitmap[..], 8 * endBlock + offset, 8 * endBlock + offset + rest, true)
    {
      ghost var s0 := bitmap[..];
      ghost var here := if offset + rest < 8 then offset + rest else 8;
      var bits := RestBits(rest);
      RestHere(rest, offset);
      OrByte(endBlock, bits >> offset, offset, here);
      ghost var s1 := bitmap[..];
      RestNext(rest, offset);
      OrByte(endBlock + 1, bits << (8 - offset), 0, Spill(rest, offset));
      if offset + rest < 8 {
        PaintNothing(s0, s1, bitmap[..], 8 * endBlock + offset, 8 * endBlock + here, 8 * (endBlock + 1), true);
      } else {
        PaintJoin(s0, s1, bitmap[..], 8 * endBlock + offset, 8 * (endBlock + 1), 8 * endBlock + offset + rest, true);
      }
    }

    /** reserve_frames: sets the bits of the request. */
    method ReserveFrames(start: nat, bytes: nat)
      requires Valid() && Fits(start, bytes)
      modifies bitmap, this`reserved
      ensures Repainted(old(bitmap[..]), bitmap[..], start / 4096, Pages(bytes), true)
      ensures var touched := Touched(start / 4096, Pages(bytes)) * Range(0, 8 * size);
        Valid() && View() == old(View()).(reserved := old(View()).reserved + touched)
    {
      assert Touched(start / 4096, 0) == {};
      if bytes == 0 { return; }
      var pages := ((bytes - 1) / 4096 + 1) % 0x1_0000_0000;
      var blocks := pages / 8;
      var startBlock := start / 4096 / 8 % 0x1_0000_0000;
      var offset := start / 4096 % 8;
      var endBlock := (startBlock + blocks) % 0x1_0000_0000;
      ghost var f := start / 4096;
      RequestShape(f, Pages(bytes), bitmap.Length);
      if blocks != 0 {
        ReserveBlocks(startBlock, offset, blocks);
      }
      ghost var mid := bitmap[..];
      var rest := pages % 8;
      if rest != 0 {
        ReserveRest(endBlock, offset, rest);
      }
      PaintRequest(old(bitmap[..]), mid, bitmap[..], f, pages, true);
      TiesRepainted(old(bitmap[..]), bitmap[..], 8 * size, f, pages, true, reserved);
      reserved := reserved + (Touched(start / 4096, Pages(bytes)) * Range(0, 8 * size));
    }

    /** The whole blocks of a request; the shifted tail only from two blocks on. */
    method FreeBlocks(startBlock: nat, offset: nat, blocks: nat)
      requires offset < 8 && 0 < blocks && startBlock + blocks < bitmap.Length
      modifies bitmap
      ensures Painted(old(bitmap[..]), bitmap[..], 8 * startBlock + offset,
                      8 * (startBlock + blocks) + (if blocks > 1 then offset else 0), false)
    {
      ghost var s0 := bitmap[..];
      ghost var f := 8 * startBlock + offset;
      HeadMask(offset);
      ClearByte(startBlock, (0xff as bv8) >> offset, offset, 8);
      for i := startBlock + 1 to startBlock + blocks
        invariant Painted(s0, bitmap[..], f, 8 * i, false)
      {
        ghost var s := bitmap[..];
        PaintBlock(s, s[i := 0], i, false);
        bitmap[i] := 0;
        assert bitmap[..] == s[i := 0];
        PaintJoin(s0, s, bitmap[..], f, 8 * i, 8 * (i + 1), false);
      }
      if blocks > 1 {
        ghost var s := bitmap[..];
        TailMask(offset);
        ClearByte(startBlock + blocks, (0xff as bv8) << (8 - offset), 0, offset);
        PaintJoin(s0, s, bitmap[..], f, 8 * (startBlock + blocks), 8 * (startBlock + blocks) + offset, false);
      }
    }

    /** The last, incomplete block of a request, spread over two bytes. */
    method FreeRest(endBlock: nat, offset: nat, rest: nat)
      requires offset < 8 && 0 < rest < 8 && endBlock + 1 < bitmap.Length
      modifies bitmap
      ensures Painted(old(bitmap[..]), bitmap[..], 8 * endBlock + offset, 8 * endBlock + offset + rest, false)
    {
      ghost var s0 := bitmap[..];
      ghost var here := if offset + rest < 8 then offset + rest else 8;
      var bits := RestBits(rest);
      RestHere(rest, offset);
      ClearByte(endBlock, bits >> offset, offset, here);
      ghost var s1 := bitmap[..];
      RestNext(rest, offset);
      ClearByte(endBlock + 1, bits << (8 - offset), 0, Spill(rest, offset));
      if offset + rest < 8 {
        PaintNothing(s0, s1, bitmap[..], 8 * endBlock + offset, 8 * endBlock + here, 8 * (endBlock + 1), false);
      } else {
        PaintJoin(s0, s1, bitmap[..], 8 * endBlock + offset, 8 * (endBlock + 1), 8 * endBlock + offset + rest, false);
      }
    }

    /** free_frames: clears the bits of the request. */
    method FreeFrames(start: nat, bytes: nat)
      requires Valid() && Fits(start, bytes)
      modifies bitmap, this`reserved
      ensures Repainted(old(bitmap[..]), bitmap[..], start / 4096, Pages(bytes), false)
      ensures Valid() && View() == old(View()).(reserved := old(View()).reserved - Touched(start / 4096, Pages(bytes)))
    {
      assert Touched(start / 4096, 0) == {};
      if bytes == 0 { return; }
      var pages := ((bytes - 1) / 4096 + 1) % 0x1_0000_0000;
      var blocks := pages / 8;
      var startBlock := start / 4096 / 8 % 0x1_0000_0000;
      var offset := start / 4096 % 8;
      var endBlock := (startBlock + blocks) % 0x1_0000_0000;
      ghost var f := start / 4096;
      RequestShape(f, Pages(bytes), bitmap.Length);
      if blocks != 0 {
        FreeBlocks(startBlock, offset, blocks);
      }
      ghost var mid := bitmap[..];
      var rest := pages % 8;
      if rest != 0 {
        FreeRest(endBlock, offset, rest);
      }
      PaintRequest(old(bitmap[..]), mid, bitmap[..], f, pages, false);
      TiesRepainted(old(bitmap[..]), bitmap[..], 8 * size, f, pages, false, reserved);
      reserved := reserved - Touched(start / 4096, Pages(bytes));
    }

    /** `v` has the frames of this allocator, whatever its cursor. */
    ghost predicate Shows(v: Pmm)
      reads this, bitmap
      requires Valid()
    {
      v.frames == 8 * size && v.reserved == reserved
    }

    /** A fully reserved block ends every run. */
    lemma FullBlock(v: Pmm, i: nat, c: nat, q: nat, run: nat, count: nat)
      requires Valid() && i < size && Shows(v) && bitmap[i] == 0xff
      requires 8 * i <= q <= 8 * (i + 1) && Scanning(v, c, q, run, count)
      ensures q < 8 * (i + 1) ==> Scanning(v, c, 8 * (i + 1), 0, count)
      decreases 8 * (i + 1) - q
    {
      if q < 8 * (i + 1) {
        Uniform(bitmap[i]);
        assert BitAt(bitmap[..], q);
        ScanReserved(v, c, q, run, count);
        FullBlock(v, i, c, q + 1, 0, count);
      }
    }

    /** The inner loop of a scan: the bits of block `i` from `lastBit` down. */
    method ScanBlock(i: nat, count: nat, run: nat, ghost v: Pmm, ghost c: nat) returns (found: bool, run': nat, j: int)
      requires Valid() && i < size && Shows(v) && Scanning(v, c, 8 * i + 7 - lastBit, run, count)
      ensures found ==> 0 <= j < 8 && 0 < count <= 8 * i + 8 - j
      ensures found ==> run' == count && FirstFit(v, c, count) == Some(8 * i + 8 - j - count)
      ensures !found ==> Scanning(v, c, 8 * (i + 1), run', count)
    {
      run', j, found := run, lastBit, false;
      var b := bitmap[i];
      while j >= 0
        invariant -1 <= j < 8
        invariant Scanning(v, c, 8 * i + 7 - j, run', count)
      {
        ghost var q := 8 * i + 7 - j;
        BitShift(b, j);
        assert BitAt(bitmap[..], q) == Bit(b, 7 - j);
        if (b >> j) & 1 == 0 {
          ScanFree(v, c, q, run', count);
          run' := run' + 1;
          if run' >= count {
            found := true;
            return;
          }
        } else {
          ScanReserved(v, c, q, run', count);
          run' := 0;
        }
        j := j - 1;
      }
    }

    /** Moves the cursor to the last frame of a run that ends at (i, j) and reserves the run. */
    method Take(i: nat, j: nat, run: nat) returns (addr: nat)
      requires Valid() && i < size && j < 8 && 0 < run <= 8 * i + 8 - j
      modifies this`lastIdx, this`lastBit, this`reserved, bitmap
      ensures Valid()
      ensures var s := 8 * i + 8 - j - run;
        addr == s * 4096 &&
        View() == Pmm(8 * size, old(View()).reserved + Touched(s, run), s + run - 1)
    {
      lastIdx, lastBit := i, j;
      ghost var s := 8 * i + 8 - j - run;
      addr := (8 * i + (8 - j) - run) * 4096;
      RunShape(s, run);
      ReserveFrames(addr, run * 4096);
      assert Touched(s, run) * Range(0, 8 * size) == Touched(s, run) by {
        forall k | k in Touched(s, run) ensures k in Range(0, 8 * size) {
          assert Within(0, 8 * size, k);
        }
      }
    }

    /** The body of the outer loop: one block. */
    method ScanStep(i: nat, count: nat, run: nat, ghost v: Pmm) returns (found: bool, addr: nat, run': nat)
      requires Valid() && Shows(v) && i < size && count > 0
      requires Scanning(v, v.cursor, 8 * i + 7 - lastBit, run, count)
      modifies this`lastIdx, this`lastBit, this`reserved, bitmap
      ensures Valid()
      ensures found ==> View() == Scan(v, count).1 && Scan(v, count).0 == Some(addr / 4096) && addr % 4096 == 0
      ensures !found ==>
                && View() == old(View()) && bitmap[..] == old(bitmap[..])
                && Scanning(v, v.cursor, 8 * (i + 1), run', count)
    {
      found, addr, run' := false, 0, 0;
      var b := bitmap[i];
      if b != 0xff {
        var j;
        found, run', j := ScanBlock(i, count, run, v, v.cursor);
        if found {
          addr := Take(i, j, run');
        }
      } else {
        FullBlock(v, i, v.cursor, 8 * i + 7 - lastBit, run, count);
      }
    }

    /** pmm_alloc_unmapped_: one scan from the cursor. */
    method AllocScan(count: nat) returns (addr: nat)
      requires Valid()
      modifies this`lastIdx, this`lastBit, this`reserved, bitmap
      ensures Valid() && View() == Scan(old(View()), count).1
      ensures addr == match Scan(old(View()), count).0 case None => 0 case Some(s) => s * 4096
    {
      if count == 0 { return 0; }
      ghost var v := View();
      var run := 0;
      var i := lastIdx;
      while i < size
        invariant Valid() && Shows(v) && lastIdx == v.cursor / 8 <= i
        invariant if i == lastIdx then View() == v else lastBit == 7 && i <= size
        invariant Scanning(v, v.cursor, 8 * i + 7 - lastBit, run, count)
      {
        var found;
        found, addr, run := ScanStep(i, count, run, v);
        if found {
          return;
        }
        lastBit := 7;
        i := i + 1;
      }
      ScanEnd(v, v.cursor, 8 * i + 7 - lastBit, run, count);
      return 0;
    }

    /** pmm_alloc_unmapped: one scan, and on a null result a second one from block 0. */
    method AllocFrames(count: nat) returns (addr: nat)
      requires Valid()
      modifies this`lastIdx, this`lastBit, this`reserved, bitmap
      ensures Valid() && View() == Alloc(old(View()), count).1
      ensures addr == Alloc(old(View()), count).0 * 4096
    {
      addr := AllocScan(count);
      if addr == 0 {
        ghost var p1 := View();
        lastIdx := 0;
        assert View() == p1.(cursor := p1.cursor % 8);
        addr := AllocScan(count);
      }
    }

    /** pmm_is_free */
    method IsFree(addr: nat) returns (free: bool)
      requires Valid() && addr / 4096 < 8 * size
      ensures free <==> addr / 4096 !in View().reserved
    {
      var block := addr / 4096 / 8 % 0x1_0000_0000;
      var offset := addr / 4096 % 8;
      BitShift(bitmap[block], 8 - offset - 1);
      free := (bitmap[block] >> (8 - offset - 1)) & 1 == 0;
      assert BitAt(bitmap[..], addr / 4096) == !free;
    }
  }
}
