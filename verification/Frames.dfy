/**
 Abstract view of the physical frame allocator of src/memory/phys.c: the set of reserved
 frames, the next-fit cursor, and what one allocation or release does to them.  The class
 that works on the real byte array is proved against these functions.
 */
module Frames {
  import opened Wrappers

  /** `frames` is eight times the bitmap size; `cursor` is the frame (block, bit) names. */
  datatype Pmm = Pmm(frames: nat, reserved: set<nat>, cursor: nat)

  /** All frames of a request of `p` frames starting at frame `f`. */
  ghost predicate Within(f: nat, p: nat, k: nat) {
    f <= k < f + p
  }

  ghost function Range(f: nat, p: nat): set<nat> {
    set k: nat | f <= k < f + p && Within(f, p, k)
  }

  /** The frames that the byte masks leave out: only a request of exactly one whole block
      plus a rest (8..15 frames) at an unaligned start has any. */
  ghost predicate InGap(f: nat, p: nat, k: nat) {
    p / 8 == 1 && 8 * (f / 8 + 1) <= k < 8 * (f / 8 + 1) + f % 8
  }

  ghost predicate Touches(f: nat, p: nat, k: nat) {
    f <= k < f + p && !InGap(f, p, k)
  }

  ghost function Touched(f: nat, p: nat): set<nat> {
    set k: nat | f <= k < f + p && Touches(f, p, k)
  }

  ghost predicate GapFree(f: nat, p: nat) {
    p / 8 != 1 || f % 8 == 0
  }

  lemma TouchedWhenGapFree(f: nat, p: nat)
    ensures GapFree(f, p) <==> Touched(f, p) == Range(f, p)
    ensures !GapFree(f, p) ==> 8 * (f / 8 + 1) in Range(f, p) - Touched(f, p)
  {
    if GapFree(f, p) {
      forall k | k in Range(f, p) ensures k in Touched(f, p) {
        assert !InGap(f, p, k);
      }
    } else {
      var g := 8 * (f / 8 + 1);
      assert InGap(f, p, g) && g in Range(f, p);
    }
  }

  /** All `count` frames from `s` on are inside the bitmap and free. */
  ghost predicate FreeRun(p: Pmm, s: nat, count: nat) {
    s + count <= p.frames && forall k: nat :: s <= k < s + count ==> k !in p.reserved
  }

  /** The lowest free run starting at or after `from`. */
  ghost function FirstFit(p: Pmm, from: nat, count: nat): (r: Option<nat>)
    ensures r.Some? ==> from <= r.value && FreeRun(p, r.value, count)
    ensures r.Some? ==> forall s: nat :: from <= s < r.value ==> !FreeRun(p, s, count)
    ensures r.None? ==> forall s: nat :: from <= s ==> !FreeRun(p, s, count)
    decreases p.frames - from
  {
    if from + count > p.frames then None
    else if FreeRun(p, from, count) then Some(from)
    else FirstFit(p, from + 1, count)
  }

  /** One cursor scan.  A scan that finds nothing leaves the bit part of the cursor reset,
      provided it looked at a block at all. */
  ghost function Scan(p: Pmm, count: nat): (Option<nat>, Pmm) {
    if count == 0 then (None, p)
    else match FirstFit(p, p.cursor, count)
      case Some(s) => (Some(s), p.(reserved := p.reserved + Touched(s, count), cursor := s + count - 1))
      case None => (None, p.(cursor := if p.cursor < p.frames then p.cursor / 8 * 8 else p.cursor))
  }

  /** A null result restarts the scan at block 0 with the bit cursor left as it is.
      Frame 0 as a result stands for the null pointer. */
  ghost function Alloc(p: Pmm, count: nat): (nat, Pmm) {
    var (r, p1) := Scan(p, count);
    if r.None? || r.value == 0 then
      var (r2, p2) := Scan(p1.(cursor := p1.cursor % 8), count);
      (if r2.None? then 0 else r2.value, p2)
    else (r.value, p1)
  }

  ghost function Release(p: Pmm, f: nat, count: nat): Pmm {
    p.(reserved := p.reserved - Touched(f, count))
  }

  /** What initialisation establishes and every operation keeps. */
  ghost predicate Ready(p: Pmm) {
    p.frames % 8 == 0 && 0 in p.reserved && p.cursor < p.frames
    && forall k: nat :: k in p.reserved ==> k < p.frames
  }

  /** Soundness and completeness of the next-fit search with its one retry. */
  lemma AllocNextFit(p: Pmm, count: nat)
    requires Ready(p) && count > 0
    ensures var (s, p') := Alloc(p, count);
      && Ready(p')
      && p'.frames == p.frames
      && (s == 0 <==> forall t: nat :: !FreeRun(p, t, count))
      && (s == 0 ==> p'.reserved == p.reserved && p'.cursor == 0)
      && (s != 0 ==>
           && FreeRun(p, s, count)
           && p'.reserved == p.reserved + Touched(s, count)
           && p'.cursor == s + count - 1
           && (s >= p.cursor ==> forall t: nat :: p.cursor <= t < s ==> !FreeRun(p, t, count))
           && (s < p.cursor ==> forall t: nat :: (p.cursor <= t || t < s) ==> !FreeRun(p, t, count)))
  {
    var (r, p1) := Scan(p, count);
    if r.None? {
      var q := p1.(cursor := p1.cursor % 8);
      assert q.cursor == 0;
      assert forall t: nat :: FreeRun(q, t, count) == FreeRun(p, t, count);
      var (r2, p2) := Scan(q, count);
      if r2.None? {
        assert forall t: nat :: !FreeRun(q, t, count);
      } else {
        assert !FreeRun(p, 0, count);
      }
    } else {
      assert !FreeRun(p, 0, count);
    }
  }

  /** Without the cursor in range the retry keeps a stale bit and misses runs before it:
      a null result then only says that no run starts at or after that bit. */
  lemma AllocStaleCursor(p: Pmm, count: nat)
    requires p.frames % 8 == 0 && 0 in p.reserved && p.cursor >= p.frames && count > 0
    ensures Alloc(p, count).0 == 0 <==> forall t: nat :: p.cursor % 8 <= t ==> !FreeRun(p, t, count)
  {
    var (r, p1) := Scan(p, count);
    assert r.None?;
    var q := p1.(cursor := p1.cursor % 8);
    assert forall t: nat :: FreeRun(q, t, count) == FreeRun(p, t, count);
    assert !FreeRun(p, 0, count);
  }

  /** A free frame can always be had, and taking it changes the free set by exactly it. */
  lemma AllocOne(p: Pmm)
    requires Ready(p)
    ensures var (s, p') := Alloc(p, 1);
      && Ready(p')
      && p'.frames == p.frames
      && (s == 0 <==> forall k: nat :: k < p.frames ==> k in p.reserved)
      && (s == 0 ==> p'.reserved == p.reserved)
      && (s != 0 ==> s < p.frames && s !in p.reserved && p'.reserved == p.reserved + {s})
  {
    AllocNextFit(p, 1);
    var s := Alloc(p, 1).0;
    if s != 0 {
      assert FreeRun(p, s, 1);
      TouchedWhenGapFree(s, 1);
      assert Range(s, 1) == {s};
    } else {
      forall k: nat | k < p.frames ensures k in p.reserved {
        assert !FreeRun(p, k, 1);
      }
    }
    if exists k: nat :: k < p.frames && k !in p.reserved {
      var k: nat :| k < p.frames && k !in p.reserved;
      assert FreeRun(p, k, 1);
    }
  }

  /** The reserved set grows by exactly the run handed out if and only if the run is not one
      whole block plus a rest at an unaligned start. */
  lemma AllocReservesExactly(p: Pmm, count: nat)
    requires Ready(p) && count > 0 && Alloc(p, count).0 != 0
    ensures var (s, p') := Alloc(p, count);
      p'.reserved == p.reserved + Range(s, count) <==> GapFree(s, count)
  {
    AllocNextFit(p, count);
    var (s, p') := Alloc(p, count);
    TouchedWhenGapFree(s, count);
    if !GapFree(s, count) {
      var g := 8 * (s / 8 + 1);
      assert g !in p.reserved && g !in p'.reserved;
    }
  }

  /** Releasing a run just handed out restores the reserved set, whatever the count. */
  lemma ReleaseUndoesAlloc(p: Pmm, count: nat)
    requires Ready(p) && count > 0 && Alloc(p, count).0 != 0
    ensures var (s, p') := Alloc(p, count);
      Release(p', s, count).reserved == p.reserved
  {
    AllocNextFit(p, count);
    var (s, p') := Alloc(p, count);
    assert forall k: nat :: k in Touched(s, count) ==> k !in p.reserved;
  }

  /** State of a scan started at `c` that is about to look at frame `q`: the last `run` frames
      are free and no run found so far is long enough. */
  ghost predicate Scanning(p: Pmm, c: nat, q: nat, run: nat, count: nat) {
    && run < count
    && c + run <= q
    && (forall k: nat :: q - run <= k < q ==> k !in p.reserved)
    && (forall s: nat :: c <= s < q - run ==> !FreeRun(p, s, count))
  }

  lemma ScanFree(p: Pmm, c: nat, q: nat, run: nat, count: nat)
    requires Scanning(p, c, q, run, count) && q < p.frames && q !in p.reserved
    ensures run + 1 < count ==> Scanning(p, c, q + 1, run + 1, count)
    ensures run + 1 >= count ==> q + 1 >= count && FirstFit(p, c, count) == Some(q + 1 - count)
  {
    if run + 1 >= count {
      assert FreeRun(p, q + 1 - count, count);
    }
  }

  lemma ScanReserved(p: Pmm, c: nat, q: nat, run: nat, count: nat)
    requires Scanning(p, c, q, run, count) && q in p.reserved
    ensures Scanning(p, c, q + 1, 0, count)
  {
    forall s: nat | c <= s < q + 1 ensures !FreeRun(p, s, count) {
      if s >= q - run {
        assert s <= q < s + count;
      }
    }
  }

  lemma ScanEnd(p: Pmm, c: nat, q: nat, run: nat, count: nat)
    requires Scanning(p, c, q, run, count) && q >= p.frames
    ensures FirstFit(p, c, count) == None
  {
    assert forall s: nat :: c <= s ==> !FreeRun(p, s, count);
  }
}
