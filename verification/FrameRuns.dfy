/**
 Whole runs of the frame allocator: allocations of any size and releases of live runs, in
 any order.  Says exactly when two live allocations can share a frame.
 */
module FrameRuns {
  import opened Frames

  datatype Block = Block(start: nat, count: nat)

  /** The allocator together with the runs its clients hold. */
  datatype World = World(p: Pmm, live: seq<Block>)

  datatype Op = Take(count: nat) | Give(i: nat)

  ghost function Apply(w: World, op: Op): World {
    match op
    case Take(count) =>
      var (s, p') := Alloc(w.p, count);
      World(p', if s == 0 then w.live else w.live + [Block(s, count)])
    case Give(i) =>
      if i < |w.live| then World(Release(w.p, w.live[i].start, w.live[i].count), w.live[..i] + w.live[i + 1..])
      else w
  }

  ghost function Run(w: World, ops: seq<Op>): World
    decreases |ops|
  {
    if ops == [] then w else Run(Apply(w, ops[0]), ops[1..])
  }

  ghost predicate Holds(b: Block, k: nat) {
    b.start <= k < b.start + b.count
  }

  ghost predicate Held(live: seq<Block>, k: nat) {
    exists i: nat :: i < |live| && Holds(live[i], k)
  }

  /** The reserved set is the initial one plus the live runs; live runs lie inside the
      bitmap, avoid the initially reserved frames and each other. */
  ghost predicate NoDoubleAllocation(w: World, base: set<nat>) {
    && Ready(w.p)
    && 0 in base
    && (forall k: nat :: k in w.p.reserved <==> k in base || Held(w.live, k))
    && (forall k: nat :: Held(w.live, k) ==> k !in base)
    && Disjoint(w.live)
  }

  ghost predicate Apart(a: Block, b: Block) {
    forall k: nat :: Holds(a, k) ==> !Holds(b, k)
  }

  ghost predicate Disjoint(live: seq<Block>) {
    forall i: nat, j: nat :: i < j < |live| ==> Apart(live[i], live[j])
  }

  ghost predicate AllGapFree(live: seq<Block>) {
    forall i: nat :: i < |live| ==> GapFree(live[i].start, live[i].count)
  }

  lemma HeldExtended(live: seq<Block>, b: Block, k: nat)
    ensures Held(live + [b], k) <==> Held(live, k) || Holds(b, k)
  {
    var l := live + [b];
    if Held(live, k) {
      var i: nat :| i < |live| && Holds(live[i], k);
      assert l[i] == live[i];
    }
    if Holds(b, k) { assert l[|live|] == b; }
  }

  lemma HeldReduced(live: seq<Block>, at: nat, k: nat)
    requires at < |live|
    ensures Held(live[..at] + live[at + 1..], k) ==> Held(live, k)
    ensures Held(live, k) && !Holds(live[at], k) ==> Held(live[..at] + live[at + 1..], k)
  {
    var l := live[..at] + live[at + 1..];
    if Held(l, k) {
      var i: nat :| i < |l| && Holds(l[i], k);
      assert l[i] == live[if i < at then i else i + 1];
    }
    if Held(live, k) && !Holds(live[at], k) {
      var i: nat :| i < |live| && Holds(live[i], k);
      assert live[i] == l[if i < at then i else i - 1];
    }
  }

  /** One allocation keeps the invariant exactly when it fails or the run it hands out is
      not one block plus a rest at an unaligned start. */
  lemma TakeExact(w: World, base: set<nat>, count: nat)
    requires NoDoubleAllocation(w, base) && count > 0
    ensures var s := Alloc(w.p, count).0;
      NoDoubleAllocation(Apply(w, Take(count)), base) <==> s == 0 || GapFree(s, count)
  {
    AllocNextFit(w.p, count);
    var (s, p') := Alloc(w.p, count);
    var w' := Apply(w, Take(count));
    if s != 0 {
      TouchedWhenGapFree(s, count);
      forall k: nat ensures Held(w'.live, k) <==> Held(w.live, k) || Holds(Block(s, count), k) {
        HeldExtended(w.live, Block(s, count), k);
      }
      if GapFree(s, count) {
        forall k: nat ensures k in Range(s, count) <==> Holds(Block(s, count), k) {
          assert Within(s, count, k) <==> Holds(Block(s, count), k);
        }
        forall k: nat | Holds(Block(s, count), k) ensures !Held(w.live, k) && k !in base {
          assert k !in w.p.reserved;
        }
        TakeKeeps(w.live, Block(s, count));
      } else {
        var g := 8 * (s / 8 + 1);
        assert Holds(Block(s, count), g) && g !in w.p.reserved;
        assert g !in p'.reserved && Held(w'.live, g);
      }
    }
  }

  lemma TakeKeeps(live: seq<Block>, b: Block)
    requires Disjoint(live) && forall k: nat :: Holds(b, k) ==> !Held(live, k)
    ensures Disjoint(live + [b])
  {
    var l := live + [b];
    forall i: nat, j: nat | i < j < |l| ensures Apart(l[i], l[j]) {
      if j == |live| {
        forall k: nat | Holds(l[i], k) ensures !Holds(b, k) {
          assert Held(live, k);
        }
      }
    }
  }

  lemma GiveKeeps(w: World, base: set<nat>, at: nat)
    requires NoDoubleAllocation(w, base) && AllGapFree(w.live) && at < |w.live|
    ensures NoDoubleAllocation(Apply(w, Give(at)), base) && AllGapFree(Apply(w, Give(at)).live)
  {
    var b := w.live[at];
    var l := w.live[..at] + w.live[at + 1..];
    var w' := Apply(w, Give(at));
    TouchedWhenGapFree(b.start, b.count);
    assert forall i: nat :: i < |l| ==> l[i] == w.live[if i < at then i else i + 1];
    forall k: nat ensures Held(l, k) <==> Held(w.live, k) && !Holds(b, k) {
      HeldReduced(w.live, at, k);
      if Holds(b, k) {
        forall i: nat | i < |l| ensures !Holds(l[i], k) {
          if i < at { assert Apart(w.live[i], b); } else { assert Apart(b, w.live[i + 1]); }
        }
      }
    }
    forall k: nat ensures k in w'.p.reserved <==> k in base || Held(l, k) {
      assert k in Range(b.start, b.count) <==> Holds(b, k) by { assert Within(b.start, b.count, k) <==> Holds(b, k); }
      if Holds(b, k) { assert Held(w.live, k); }
    }
  }

  /** A request that some free run could meet gives its client one more run, of free frames and of the
      length asked for; any other gives nothing and reserves nothing. */
  lemma TakeGets(w: World, base: set<nat>, count: nat)
    requires NoDoubleAllocation(w, base) && count > 0
    ensures var w' := Apply(w, Take(count));
      if exists t: nat :: FreeRun(w.p, t, count)
      then && |w'.live| == |w.live| + 1 && w'.live[..|w.live|] == w.live && w'.live[|w.live|].count == count
           && FreeRun(w.p, w'.live[|w.live|].start, count)
      else w'.live == w.live && w'.p.reserved == w.p.reserved
  {
    AllocNextFit(w.p, count);
  }

  /** A release frees the frames of that run and no others, and takes no other run away. */
  lemma GiveReturns(w: World, base: set<nat>, at: nat, k: nat)
    requires NoDoubleAllocation(w, base) && AllGapFree(w.live) && at < |w.live|
    ensures var w' := Apply(w, Give(at));
      && w'.live == w.live[..at] + w.live[at + 1..]
      && (k in w'.p.reserved <==>
            k in w.p.reserved && !(w.live[at].start <= k < w.live[at].start + w.live[at].count))
  {
    var b := w.live[at];
    TouchedWhenGapFree(b.start, b.count);
    assert k in Range(b.start, b.count) <==> Within(b.start, b.count, k);
  }

  /** No double allocation over every run of allocations with counts outside 8..15 and releases. */
  lemma {:induction false} RunsNeverShareFrames(w: World, base: set<nat>, ops: seq<Op>)
    requires NoDoubleAllocation(w, base) && AllGapFree(w.live)
    requires forall i: nat :: i < |ops| && ops[i].Take? ==> !(8 <= ops[i].count <= 15)
    ensures NoDoubleAllocation(Run(w, ops), base) && AllGapFree(Run(w, ops).live)
    decreases |ops|
  {
    if ops != [] {
      var w' := Apply(w, ops[0]);
      match ops[0] {
        case Take(count) =>
          if count == 0 { TakeNone(w, base); } else { TakeExact(w, base, count); }
        case Give(i) =>
          if i < |w.live| { GiveKeeps(w, base, i); }
      }
      assert forall i: nat :: i < |ops[1..]| ==> ops[1..][i] == ops[i + 1];
      RunsNeverShareFrames(w', base, ops[1..]);
    }
  }

  lemma TakeNone(w: World, base: set<nat>)
    requires NoDoubleAllocation(w, base)
    ensures NoDoubleAllocation(Apply(w, Take(0)), base) && Apply(w, Take(0)).live == w.live
  {
  }

  /** A caller can rely on exact reservation for every allocator state if and only if it asks
      for a count outside 8..15. */
  lemma SafeCountsAreExact(count: nat)
    requires count > 0
    ensures (forall w: World, base: set<nat> :: NoDoubleAllocation(w, base) ==>
               NoDoubleAllocation(Apply(w, Take(count)), base))
            <==> count / 8 != 1
  {
    if count / 8 != 1 {
      forall w: World, base: set<nat> | NoDoubleAllocation(w, base)
        ensures NoDoubleAllocation(Apply(w, Take(count)), base)
      {
        TakeExact(w, base, count);
      }
    } else {
      var w := World(Pmm(24, {0}, 0), []);
      assert NoDoubleAllocation(w, {0});
      TakeExact(w, {0}, count);
      AllocNextFit(w.p, count);
      assert FreeRun(w.p, 1, count);
      assert !FreeRun(w.p, 0, count);
      assert Alloc(w.p, count).0 == 1;
      assert !GapFree(1, count);
    }
  }

  /** The failing family at work: eight frames, then one; the second request gets a frame of
      the first. */
  lemma DoubleAllocationAt8()
    ensures var w := Run(World(Pmm(24, {0}, 0), []), [Take(8), Take(1)]);
      w.live == [Block(1, 8), Block(8, 1)]
  {
    var w0 := World(Pmm(24, {0}, 0), []);
    AllocNextFit(w0.p, 8);
    assert FreeRun(w0.p, 1, 8) && !FreeRun(w0.p, 0, 8);
    var w1 := Apply(w0, Take(8));
    assert w1.live == [Block(1, 8)];
    assert InGap(1, 8, 8) && 8 !in w1.p.reserved && w1.p.cursor == 8;
    AllocNextFit(w1.p, 1);
    assert FreeRun(w1.p, 8, 1);
    var w2 := Apply(w1, Take(1));
    assert w2.live == [Block(1, 8), Block(8, 1)];
    var ops := [Take(8), Take(1)];
    assert ops[1..] == [Take(1)] && ops[1..][1..] == [];
    assert Run(w2, []) == w2;
    assert Run(w1, ops[1..]) == w2;
  }
}
