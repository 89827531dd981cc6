/**
 MSB-first bit arithmetic on the bytes of the frame bitmap: the shifted 0xff masks of
 src/memory/phys.c denote contiguous spans of frames inside one block.
 */
module Bitmap {
  import opened Frames

  /** Bit `k` of a block, counted from the most significant one: frame `k` of the block. */
  predicate Bit(b: bv8, k: nat)
    requires k < 8
  {
    b & Weight(k) != 0
  }

  function Weight(k: nat): bv8
    requires k < 8
  {
    if k == 0 then 0x80 else if k == 1 then 0x40 else if k == 2 then 0x20 else if k == 3 then 0x10
    else if k == 4 then 8 else if k == 5 then 4 else if k == 6 then 2 else 1
  }

  /** The bit of frame `k` in a whole bitmap. */
  predicate BitAt(s: seq<bv8>, k: nat)
    requires k < 8 * |s|
  {
    Bit(s[k / 8], k % 8)
  }

  /** `mask` holds exactly the bits lo..hi of a block. */
  ghost predicate Spans(mask: bv8, lo: nat, hi: nat) {
    forall k: nat :: k < 8 ==> (Bit(mask, k) <==> lo <= k < hi)
  }

  /** `after` is `before` with the frames lo..hi set to `v`. */
  ghost predicate Painted(before: seq<bv8>, after: seq<bv8>, lo: nat, hi: nat, v: bool) {
    |after| == |before| &&
    forall k: nat :: k < 8 * |after| ==> BitAt(after, k) == (if lo <= k < hi then v else BitAt(before, k))
  }

  /** `after` is `before` with the frames touched by a request set to `v`. */
  ghost predicate Repainted(before: seq<bv8>, after: seq<bv8>, f: nat, p: nat, v: bool) {
    |after| == |before| &&
    forall k: nat :: k < 8 * |after| ==> BitAt(after, k) == (if Touches(f, p, k) then v else BitAt(before, k))
  }

  /** The bit test as the code writes it: shift the block right and look at the last bit. */
  lemma BitShift(b: bv8, j: nat)
    requires j < 8
    ensures (b >> j) & 1 == 0 <==> !Bit(b, 7 - j)
  {
  }

  lemma SingleBit(a: bv8, b: bv8, w: bv8)
    requires w != 0 && w & (w - 1) == 0
    ensures (a | b) & w != 0 <==> a & w != 0 || b & w != 0
    ensures (a & !b) & w != 0 <==> a & w != 0 && b & w == 0
  {
  }

  lemma BitOps(a: bv8, b: bv8, k: nat)
    requires k < 8
    ensures Bit(a | b, k) <==> Bit(a, k) || Bit(b, k)
    ensures Bit(a & !b, k) <==> Bit(a, k) && !Bit(b, k)
  {
    SingleBit(a, b, Weight(k));
  }

  lemma Uniform(b: bv8)
    ensures b == 0xff <==> forall k: nat :: k < 8 ==> Bit(b, k)
    ensures b == 0 <==> forall k: nat :: k < 8 ==> !Bit(b, k)
  {
    assert forall k: nat :: k < 8 ==> Bit(0xff, k) && !Bit(0, k);
    if forall k: nat :: k < 8 ==> Bit(b, k) {
      assert Bit(b, 0) && Bit(b, 1) && Bit(b, 2) && Bit(b, 3) && Bit(b, 4) && Bit(b, 5) && Bit(b, 6) && Bit(b, 7);
    }
    if forall k: nat :: k < 8 ==> !Bit(b, k) {
      assert !Bit(b, 0) && !Bit(b, 1) && !Bit(b, 2) && !Bit(b, 3);
      assert !Bit(b, 4) && !Bit(b, 5) && !Bit(b, 6) && !Bit(b, 7);
    }
  }

  /** Shifting right by `o` moves every bit `o` places towards the end of the block. */
  lemma ShiftRight(m: bv8, o: nat, k: nat)
    requires o < 8 && k < 8
    ensures Bit(m >> o, k) <==> o <= k && Bit(m, k - o)
  {
    if o == 0 {} else if o == 1 {} else if o == 2 {} else if o == 3 {}
    else if o == 4 {} else if o == 5 {} else if o == 6 {} else {}
  }

  /** Shifting left by `o` moves every bit `o` places towards the start of the block. */
  lemma ShiftLeft(m: bv8, o: nat, k: nat)
    requires o <= 8 && k < 8
    ensures Bit(m << o, k) <==> k + o < 8 && Bit(m, k + o)
  {
    if o == 0 {} else if o == 1 {} else if o == 2 {} else if o == 3 {}
    else if o == 4 {} else if o == 5 {} else if o == 6 {} else if o == 7 {} else {}
  }

  lemma HeadMask(offset: nat)
    requires offset < 8
    ensures Spans((0xff as bv8) >> offset, offset, 8)
  {
    var m := (0xff as bv8) >> offset;
    forall k: nat | k < 8 ensures Bit(m, k) <==> offset <= k < 8 {
      ShiftRight(0xff, offset, k);
      Uniform(0xff);
    }
  }

  lemma TailMask(offset: nat)
    requires offset < 8
    ensures Spans((0xff as bv8) << (8 - offset), 0, offset)
  {
    var m := (0xff as bv8) << (8 - offset);
    forall k: nat | k < 8 ensures Bit(m, k) <==> k < offset {
      ShiftLeft(0xff, 8 - offset, k);
      Uniform(0xff);
    }
  }

  function RestBits(rest: nat): bv8
    requires 0 < rest < 8
  {
    ((0xff as bv8) >> (8 - rest)) << (8 - rest)
  }

  lemma RestMask(rest: nat)
    requires 0 < rest < 8
    ensures Spans(RestBits(rest), 0, rest)
  {
    var o := 8 - rest;
    forall k: nat | k < 8 ensures Bit(RestBits(rest), k) <==> k < rest {
      ShiftLeft((0xff as bv8) >> o, o, k);
      if k + o < 8 {
        ShiftRight(0xff, o, k + o);
        Uniform(0xff);
      }
    }
  }

  lemma RestHere(rest: nat, offset: nat)
    requires 0 < rest < 8 && offset < 8
    ensures Spans(RestBits(rest) >> offset, offset, offset + rest)
  {
    RestMask(rest);
    var m := RestBits(rest) >> offset;
    forall k: nat | k < 8 ensures Bit(m, k) <==> offset <= k < offset + rest {
      ShiftRight(RestBits(rest), offset, k);
    }
  }

  lemma RestNext(rest: nat, offset: nat)
    requires 0 < rest < 8 && offset < 8
    ensures Spans(RestBits(rest) << (8 - offset), 0, Spill(rest, offset))
  {
    RestMask(rest);
    var m := RestBits(rest) << (8 - offset);
    forall k: nat | k < 8 ensures Bit(m, k) <==> k < Spill(rest, offset) {
      ShiftLeft(RestBits(rest), 8 - offset, k);
    }
  }

  /** How many frames of the rest fall into the block after the one it starts in. */
  function Spill(rest: nat, offset: nat): nat {
    if offset + rest < 8 then 0 else offset + rest - 8
  }

  /** `to` is block `from` with the bits lo..hi set to `v`. */
  ghost predicate BytePainted(from: bv8, to: bv8, lo: nat, hi: nat, v: bool) {
    forall k: nat :: k < 8 ==> Bit(to, k) == (if lo <= k < hi then v else Bit(from, k))
  }

  lemma OrSpan(b: bv8, mask: bv8, to: bv8, lo: nat, hi: nat)
    requires Spans(mask, lo, hi) && to == b | mask
    ensures BytePainted(b, to, lo, hi, true)
  {
    forall k: nat | k < 8 ensures Bit(to, k) == (if lo <= k < hi then true else Bit(b, k)) {
      BitOps(b, mask, k);
      assert Bit(mask, k) <==> lo <= k < hi;
    }
  }

  lemma ClearSpan(b: bv8, mask: bv8, to: bv8, lo: nat, hi: nat)
    requires Spans(mask, lo, hi) && to == b & !mask
    ensures BytePainted(b, to, lo, hi, false)
  {
    forall k: nat | k < 8 ensures Bit(to, k) == (if lo <= k < hi then false else Bit(b, k)) {
      BitOps(b, mask, k);
      assert Bit(mask, k) <==> lo <= k < hi;
    }
  }

  /** Painting a span of one block paints that span of the bitmap. */
  lemma PaintAt(before: seq<bv8>, after: seq<bv8>, i: nat, lo: nat, hi: nat, v: bool)
    requires i < |before| == |after| && after == before[i := after[i]] && hi <= 8
    requires BytePainted(before[i], after[i], lo, hi, v)
    ensures Painted(before, after, 8 * i + lo, 8 * i + hi, v)
  {
    forall k: nat | k < 8 * |after|
      ensures BitAt(after, k) == (if 8 * i + lo <= k < 8 * i + hi then v else BitAt(before, k))
    {
      if k / 8 == i {
        assert Bit(after[i], k % 8) == (if lo <= k % 8 < hi then v else Bit(before[i], k % 8));
      }
    }
  }

  /** Overwriting one byte by 0xff (by 0) paints the whole block. */
  lemma PaintBlock(before: seq<bv8>, after: seq<bv8>, i: nat, v: bool)
    requires i < |before| && after == before[i := if v then 0xff else 0]
    ensures Painted(before, after, 8 * i, 8 * (i + 1), v)
  {
    Uniform(0xff);
    Uniform(0);
    PaintAt(before, after, i, 0, 8, v);
  }

  lemma PaintJoin(s: seq<bv8>, t: seq<bv8>, u: seq<bv8>, lo: nat, mid: nat, hi: nat, v: bool)
    requires lo <= mid <= hi && Painted(s, t, lo, mid, v) && Painted(t, u, mid, hi, v)
    ensures Painted(s, u, lo, hi, v)
  {
  }

  lemma PaintNothing(s: seq<bv8>, t: seq<bv8>, u: seq<bv8>, lo: nat, hi: nat, at: nat, v: bool)
    requires Painted(s, t, lo, hi, v) && Painted(t, u, at, at, v)
    ensures Painted(s, u, lo, hi, v)
  {
  }

  /** The whole blocks (`before` to `mid`) and the rest (`mid` to `after`) of a request of `p`
      frames from `f` together paint what the request touches. */
  lemma PaintRequest(before: seq<bv8>, mid: seq<bv8>, after: seq<bv8>, f: nat, p: nat, v: bool)
    requires var end := 8 * (f / 8 + p / 8);
      && (if p < 8 then mid == before
          else Painted(before, mid, f, end + (if p / 8 > 1 then f % 8 else 0), v))
      && (if p % 8 == 0 then after == mid else Painted(mid, after, end + f % 8, f + p, v))
    ensures Repainted(before, after, f, p, v)
  {
  }

  /** `reserved` is the set of those of the first `frames` frames whose bit is set. */
  ghost predicate Ties(s: seq<bv8>, frames: nat, reserved: set<nat>) {
    && frames <= 8 * |s|
    && (forall k: nat {:trigger BitAt(s, k)} :: k < frames ==> (k in reserved <==> BitAt(s, k)))
    && (forall k: nat :: k in reserved ==> k < frames)
  }

  /** On the set of reserved frames the masks are set union and set difference. */
  lemma TiesRepainted(before: seq<bv8>, after: seq<bv8>, frames: nat, f: nat, p: nat, v: bool, r: set<nat>)
    requires Repainted(before, after, f, p, v) && Ties(before, frames, r)
    ensures v ==> Ties(after, frames, r + (Touched(f, p) * Range(0, frames)))
    ensures !v ==> Ties(after, frames, r - Touched(f, p))
  {
    assert forall k: nat :: k in Touched(f, p) <==> Touches(f, p, k);
    assert forall k: nat :: k in Range(0, frames) <==> Within(0, frames, k);
  }

  /** A byte whose frames all lie beyond the request keeps its value: the slack byte after
      the bitmap is written only with a zero mask. */
  lemma BeyondUnchanged(before: seq<bv8>, after: seq<bv8>, f: nat, p: nat, v: bool, i: nat)
    requires Repainted(before, after, f, p, v) && i < |before| && f + p <= 8 * i
    ensures after[i] == before[i]
  {
    forall k: nat | k < 8 ensures Bit(after[i], k) == Bit(before[i], k) {
      assert BitAt(after, 8 * i + k) == BitAt(before, 8 * i + k);
    }
    SameBits(before[i], after[i]);
  }

  lemma SameBits(a: bv8, b: bv8)
    requires forall k: nat :: k < 8 ==> Bit(a, k) == Bit(b, k)
    ensures a == b
  {
    assert Bit(a, 0) == Bit(b, 0) && Bit(a, 1) == Bit(b, 1) && Bit(a, 2) == Bit(b, 2) && Bit(a, 3) == Bit(b, 3);
    assert Bit(a, 4) == Bit(b, 4) && Bit(a, 5) == Bit(b, 5) && Bit(a, 6) == Bit(b, 6) && Bit(a, 7) == Bit(b, 7);
  }
}
