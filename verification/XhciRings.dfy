/**
 The command ring and the event ring of src/driver/xhci/xhci.c, against controllers that follow
 sections 4.9.3, 4.9.4 and 6.4.4.1 of the xHCI specification.
 */
module XhciRings {
  import opened Wrappers

  const RING: nat := 32   // XHCI_MAX_COMMANDS and XHCI_MAX_EVENTS

  /** A transfer request block; its flags word as the cycle bit, bit 1 and the remaining bits. */
  datatype Trb = Trb(addr: nat, status: nat, cycle: bool, tc: bool, flags: nat)

  const EMPTY: Trb := Trb(0, 0, false, false, 0)
  const LINK_TYPE: nat := 6 * 0x400

  /** The producer's cycle state after `n` entries: set in even laps. */
  function Phase(n: nat): bool {
    n / RING % 2 == 0
  }

  lemma PhaseFlips(n: nat)
    ensures Phase(n + 32) == !Phase(n)
  {
    assert (n + 32) / 32 == n / 32 + 1;
  }

  // ---------- the event ring ----------

  /** Ring memory, the controller's enqueue side, and the driver's dequeue side. */
  datatype Channel = Channel(ring: seq<Trb>, hcIdx: nat, hcCycle: bool, idx: nat, ccs: bool)

  /** The controller writes cyclically with its own cycle state. */
  function Produce(ch: Channel, trb: Trb): Channel
    requires |ch.ring| == RING && ch.hcIdx < RING
  {
    var wraps := ch.hcIdx + 1 == RING;
    ch.(ring := ch.ring[ch.hcIdx := trb.(cycle := ch.hcCycle)],
        hcIdx := if wraps then 0 else ch.hcIdx + 1,
        hcCycle := if wraps then !ch.hcCycle else ch.hcCycle)
  }

  /** One turn of process_event's loop. */
  function Poll(ch: Channel): (Channel, Option<Trb>)
    requires |ch.ring| == RING && ch.idx < RING
  {
    if ch.ring[ch.idx].cycle != ch.ccs then (ch, None)
    else
      var wraps := ch.idx + 1 == RING;
      (ch.(idx := if wraps then 0 else ch.idx + 1, ccs := if wraps then !ch.ccs else ch.ccs),
       Some(ch.ring[ch.idx]))
  }

  function InitialChannel(): Channel {
    Channel(seq(RING, _ => EMPTY), 0, true, 0, true)
  }

  /** `p` has been produced and `c` consumed: every unread event is in its slot, and every slot
      the controller may still fill shows the wrong cycle bit. */
  ghost predicate ChannelInv(ch: Channel, p: seq<Trb>, c: seq<Trb>) {
    && |ch.ring| == RING && c <= p
    && ch.hcIdx == |p| % RING && ch.hcCycle == Phase(|p|)
    && ch.idx == |c| % RING && ch.ccs == Phase(|c|)
    && (forall j: nat :: |c| <= j < |p| ==> ch.ring[j % RING] == p[j] && p[j].cycle == Phase(j))
    && (forall j: nat :: |p| <= j < |c| + RING ==> ch.ring[j % RING].cycle != Phase(j))
  }

  lemma InitialInv()
    ensures ChannelInv(InitialChannel(), [], [])
  {
    var ch := InitialChannel();
    forall j: nat | j < 32 ensures ch.ring[j % RING].cycle != Phase(j) {
      assert j % 32 == j && j / 32 == 0;
    }
  }

  lemma NextIndex(n: nat)
    ensures (n + 1) % 32 == if n % 32 + 1 == 32 then 0 else n % 32 + 1
    ensures Phase(n + 1) == if n % 32 + 1 == 32 then !Phase(n) else Phase(n)
  {
    assert (n + 1) / 32 == if n % 32 + 1 == 32 then n / 32 + 1 else n / 32;
  }

  /** A consistent ring has at most 32 unread events: the slot of a 33rd would have to show two
      different cycle bits. */
  lemma AtMostRing(ch: Channel, p: seq<Trb>, c: seq<Trb>)
    requires ChannelInv(ch, p, c)
    ensures |p| <= |c| + RING
  {
    PhaseFlips(|c|);
    assert (|c| + 32) % 32 == |c| % 32;
  }

  lemma SlotsApart(a: nat, b: nat)
    requires a < b < a + 32
    ensures a % 32 != b % 32
  {
  }

  /** The driver's cycle test succeeds exactly when an unread event exists, and then yields the
      oldest one. */
  lemma PollExact(ch: Channel, p: seq<Trb>, c: seq<Trb>)
    requires ChannelInv(ch, p, c)
    ensures var (ch', r) := Poll(ch);
      && (r.Some? <==> |c| < |p|)
      && (r.Some? ==> r.value == p[|c|] && ChannelInv(ch', p, c + [r.value]))
      && (r.None? ==> ch' == ch)
  {
    var n := |c|;
    if n < |p| {
      assert ch.ring[n % RING] == p[n];
      PollKeeps(ch, p, c);
    } else {
      assert ch.ring[n % RING].cycle != Phase(n);
    }
  }

  lemma PollKeeps(ch: Channel, p: seq<Trb>, c: seq<Trb>)
    requires ChannelInv(ch, p, c) && |c| < |p| && ch.ring[|c| % RING].cycle == ch.ccs
    ensures ChannelInv(Poll(ch).0, p, c + [p[|c|]])
  {
    NextIndex(|c|);
    forall j: nat | |p| <= j < |c| + 1 + RING ensures ch.ring[j % RING].cycle != Phase(j) {
      if j == |c| + 32 {
        SlotFreed(ch, p, c, |c|, j);
      }
    }
  }

  /** The slot just read shows the wrong cycle bit for the event to come a lap later. */
  lemma SlotFreed(ch: Channel, p: seq<Trb>, c: seq<Trb>, n: nat, j: nat)
    requires ChannelInv(ch, p, c) && n == |c| < |p| && j == n + 32
    ensures ch.ring[j % RING].cycle != Phase(j)
  {
    assert ch.ring[n % RING] == p[n];
    LapLater(n, j);
    PhaseFlips(n);
  }

  lemma LapLater(n: nat, j: nat)
    requires j == n + 32
    ensures j % 32 == n % 32
  {
  }

  /** Producing keeps the invariant if and only if fewer than 32 events are unread. */
  lemma ProduceExact(ch: Channel, p: seq<Trb>, c: seq<Trb>, trb: Trb)
    requires ChannelInv(ch, p, c)
    ensures ChannelInv(Produce(ch, trb), p + [trb.(cycle := ch.hcCycle)], c) <==> |p| < |c| + RING
  {
    var n := |p|;
    var p' := p + [trb.(cycle := ch.hcCycle)];
    var ch' := Produce(ch, trb);
    NextIndex(n);
    if ChannelInv(ch', p', c) {
      AtMostRing(ch', p', c);
    }
    if n < |c| + RING {
      forall j: nat | |c| <= j < |p'| ensures ch'.ring[j % RING] == p'[j] && p'[j].cycle == Phase(j) {
        if j < n {
          SlotsApart(j, n);
          assert ch.ring[j % RING] == p[j];
        }
      }
      forall j: nat | |p'| <= j < |c| + RING ensures ch'.ring[j % RING].cycle != Phase(j) {
        SlotsApart(n, j);
        assert ch.ring[j % RING].cycle != Phase(j);
      }
    }
  }

  /** One event too many hides all unread ones from the driver. */
  lemma OverrunHidesEvents(ch: Channel, p: seq<Trb>, c: seq<Trb>, trb: Trb)
    requires ChannelInv(ch, p, c) && |p| == |c| + RING
    ensures Poll(Produce(ch, trb)).1 == None
  {
    PhaseFlips(|c|);
    assert (|c| + 32) % 32 == |c| % 32;
  }

  datatype Action = Write(trb: Trb) | Look

  /** A run of the two sides in any order: the channel, what was produced, what was consumed. */
  function Play(ch: Channel, p: seq<Trb>, c: seq<Trb>, acts: seq<Action>): (Channel, seq<Trb>, seq<Trb>)
    requires |ch.ring| == RING && ch.hcIdx < RING && ch.idx < RING
    decreases |acts|
  {
    if acts == [] then (ch, p, c)
    else
      match acts[0]
      case Write(trb) => Play(Produce(ch, trb), p + [trb.(cycle := ch.hcCycle)], c, acts[1..])
      case Look =>
        var (ch', r) := Poll(ch);
        Play(ch', p, if r.Some? then c + [r.value] else c, acts[1..])
  }

  /** The controller never gets more than 32 events ahead. */
  ghost predicate Paced(ahead: nat, acts: seq<Action>)
    decreases |acts|
  {
    acts == [] ||
    match acts[0]
    case Write(_) => ahead < RING && Paced(ahead + 1, acts[1..])
    case Look => Paced(if ahead > 0 then ahead - 1 else 0, acts[1..])
  }

  /** Over any number of laps the consumed events are a prefix of the produced ones, and the
      driver consumes whenever it looks and something is there. */
  lemma {:induction false} EventsArriveInOrder(ch: Channel, p: seq<Trb>, c: seq<Trb>, acts: seq<Action>)
    requires ChannelInv(ch, p, c) && Paced(|p| - |c|, acts)
    ensures var (ch', p', c') := Play(ch, p, c, acts); ChannelInv(ch', p', c') && p <= p' && c <= c' <= p'
    decreases |acts|
  {
    if acts != [] {
      match acts[0] {
        case Write(trb) =>
          ProduceExact(ch, p, c, trb);
          EventsArriveInOrder(Produce(ch, trb), p + [trb.(cycle := ch.hcCycle)], c, acts[1..]);
        case Look =>
          PollExact(ch, p, c);
          var (ch1, r) := Poll(ch);
          EventsArriveInOrder(ch1, p, if r.Some? then c + [r.value] else c, acts[1..]);
      }
    }
  }

  /** The TRBs a run writes. */
  function Written(acts: seq<Action>): seq<Trb> {
    if acts == [] then []
    else match acts[0] case Write(trb) => [trb] + Written(acts[1..]) case Look => Written(acts[1..])
  }

  /** `p'` is `p` and after it the TRBs `ws` as written, with the cycle bit of their lap. */
  ghost predicate Appended(p: seq<Trb>, ws: seq<Trb>, p': seq<Trb>) {
    && |p'| == |p| + |ws| && p'[..|p|] == p
    && forall k: nat {:trigger ws[k]} :: k < |ws| ==>
         var t := p'[|p| + k];
         && t.addr == ws[k].addr && t.status == ws[k].status && t.tc == ws[k].tc && t.flags == ws[k].flags
         && (t.cycle <==> (|p| + k) / 32 % 2 == 0)
  }

  /** What was produced is what was written, in that order. */
  lemma {:induction false} PlayWrites(ch: Channel, p: seq<Trb>, c: seq<Trb>, acts: seq<Action>)
    requires ChannelInv(ch, p, c) && Paced(|p| - |c|, acts)
    ensures Appended(p, Written(acts), Play(ch, p, c, acts).1)
    decreases |acts|
  {
    if acts != [] {
      match acts[0] {
        case Write(trb) =>
          var t := trb.(cycle := ch.hcCycle);
          ProduceExact(ch, p, c, trb);
          PlayWrites(Produce(ch, trb), p + [t], c, acts[1..]);
          AppendedOne(p, t, trb, Written(acts[1..]), Play(ch, p, c, acts).1);
        case Look =>
          PollExact(ch, p, c);
          var (ch1, r) := Poll(ch);
          PlayWrites(ch1, p, if r.Some? then c + [r.value] else c, acts[1..]);
      }
    }
  }

  lemma AppendedOne(p: seq<Trb>, t: Trb, trb: Trb, ws: seq<Trb>, p': seq<Trb>)
    requires Appended(p + [t], ws, p') && t == trb.(cycle := Phase(|p|))
    ensures Appended(p, [trb] + ws, p')
  {
    assert p'[..|p|] == p'[..|p + [t]|][..|p|];
    forall k: nat | k < |[trb] + ws|
      ensures var t' := p'[|p| + k];
        && t'.addr == ([trb] + ws)[k].addr && t'.status == ([trb] + ws)[k].status && t'.tc == ([trb] + ws)[k].tc
        && t'.flags == ([trb] + ws)[k].flags && (t'.cycle <==> (|p| + k) / 32 % 2 == 0)
    {
      if k > 0 {
        assert ([trb] + ws)[k] == ws[k - 1];
      } else {
        assert p'[|p|] == p'[..|p + [t]|][|p|];
      }
    }
  }

  /** Looking `n` times. */
  function Looks(n: nat): seq<Action> {
    seq(n, _ => Look)
  }

  /** As many looks as events are unread read all of them. */
  lemma {:induction false} LooksReadAll(ch: Channel, p: seq<Trb>, c: seq<Trb>, n: nat)
    requires ChannelInv(ch, p, c) && n == |p| - |c|
    ensures Play(ch, p, c, Looks(n)).2 == p
    decreases n
  {
    if n > 0 {
      PollExact(ch, p, c);
      assert Looks(n)[1..] == Looks(n - 1);
      LooksReadAll(Poll(ch).0, p, c + [p[|c|]], n - 1);
    }
  }

  function Writes(ws: seq<Trb>): seq<Action> {
    seq(|ws|, k requires 0 <= k < |ws| => Write(ws[k]))
  }

  /** A burst is paced if and only if it fits into the ring with what is unread. */
  lemma {:induction false} BurstPaced(ahead: nat, ws: seq<Trb>)
    requires ahead <= 32
    ensures Paced(ahead, Writes(ws)) <==> ahead + |ws| <= 32
    decreases |ws|
  {
    if ws != [] {
      assert Writes(ws)[1..] == Writes(ws[1..]);
      if ahead < 32 { BurstPaced(ahead + 1, ws[1..]); }
    }
  }

  lemma {:induction false} WritesWritten(ws: seq<Trb>)
    ensures Written(Writes(ws)) == ws
    decreases |ws|
  {
    if ws != [] {
      assert Writes(ws)[1..] == Writes(ws[1..]);
      WritesWritten(ws[1..]);
    }
  }

  /** A burst of up to 32 events into a fresh ring and as many looks: the driver reads each of them,
      in order and as written but for the cycle bit. */
  lemma BurstArrives(ws: seq<Trb>, k: nat)
    requires k < |ws| <= 32
    ensures var (ch, p, c) := Play(InitialChannel(), [], [], Writes(ws));
      && |ch.ring| == 32 && ch.hcIdx < 32 && ch.idx < 32
      && var read := Play(ch, p, c, Looks(|ws|)).2;
      && |read| == |ws| && read[k].addr == ws[k].addr && read[k].status == ws[k].status
      && read[k].tc == ws[k].tc && read[k].flags == ws[k].flags && read[k].cycle
  {
    InitialInv();
    BurstPaced(0, ws);
    WritesWritten(ws);
    EventsArriveInOrder(InitialChannel(), [], [], Writes(ws));
    PlayWrites(InitialChannel(), [], [], Writes(ws));
    BurstUnread(InitialChannel(), [], [], ws);
    var (ch, p, c) := Play(InitialChannel(), [], [], Writes(ws));
    LooksReadAll(ch, p, c, |ws|);
  }

  /** Writing consumes nothing. */
  lemma {:induction false} BurstUnread(ch: Channel, p: seq<Trb>, c: seq<Trb>, ws: seq<Trb>)
    requires |ch.ring| == RING && ch.hcIdx < RING && ch.idx < RING
    ensures Play(ch, p, c, Writes(ws)).2 == c
    decreases |ws|
  {
    if ws != [] {
      assert Writes(ws)[1..] == Writes(ws[1..]);
      BurstUnread(Produce(ch, ws[0]), p + [ws[0].(cycle := ch.hcCycle)], c, ws[1..]);
    }
  }

  /** The driver's side on shared ring memory. */
  class EventRing {
    const ring: array<Trb>
    const base: nat
    var eventIdx: nat
    var eventCcs: bool
    var erdp: nat           // the dequeue pointer register

    /** create_event_ring_seg and the cycle state of a new controller. */
    constructor (memory: array<Trb>, addr: nat)
      requires memory.Length == RING
      modifies memory
      ensures ring == memory && base == addr == erdp
      ensures Matches(InitialChannel())
      ensures forall j: nat :: j < 32 ==> ring[j] == Trb(0, 0, false, false, 0)
    {
      ring, base, eventIdx, eventCcs, erdp := memory, addr, 0, true, addr;
      new;
      for i := 0 to RING
        invariant eventIdx == 0 && eventCcs && erdp == addr
        invariant forall j: nat :: j < i ==> ring[j] == EMPTY
      {
        ring[i] := EMPTY;
      }
      assert ring[..] == InitialChannel().ring;
    }

    /** The channel as the driver sees it. */
    ghost predicate Matches(ch: Channel)
      reads this, ring
    {
      ring.Length == RING && ch.ring == ring[..] && ch.idx == eventIdx < RING && ch.ccs == eventCcs
      && erdp == base + 16 * eventIdx
    }

    /** One turn of process_event's loop. */
    method ProcessOne(ghost ch: Channel) returns (r: Option<Trb>)
      requires Matches(ch)
      modifies this
      ensures r == Poll(ch).1 && Matches(Poll(ch).0)
    {
      var cycleBit := ring[eventIdx].cycle;
      if cycleBit != eventCcs {
        return None;
      }
      var trb := ring[eventIdx];
      eventIdx := eventIdx + 1;
      if eventIdx == RING {
        eventIdx := 0;
        eventCcs := !eventCcs;
      }
      erdp := base + 16 * eventIdx;
      r := Some(trb);
    }
  }

  // ---------- the command ring ----------

  function Link(addr: nat): Trb {
    Trb(addr, 0, false, false, LINK_TYPE)
  }

  /** What queue_cmd stores for command number `j`. */
  function Queued(trb: Trb, j: nat): Trb {
    trb.(cycle := Phase(j), tc := trb.tc || j % RING == RING - 1)
  }

  /** The newest of `n` command numbers that goes to slot `i`. */
  function Newest(n: nat, i: nat): nat
    requires i < RING && i < n
  {
    i + (n - 1 - i) / RING * RING
  }

  lemma NewestShape(n: nat, i: nat)
    requires i < RING && i < n
    ensures var j := Newest(n, i); j < n <= j + RING && j % RING == i
  {
    assert (i + (n - 1 - i) / 32 * 32) % 32 == i;
  }

  /** What slot `i` holds after the commands `cmds`. */
  function SlotAfter(cmds: seq<Trb>, addr: nat, i: nat): Trb
    requires i < RING
  {
    if i < |cmds| then
      NewestShape(|cmds|, i);
      Queued(cmds[Newest(|cmds|, i)], Newest(|cmds|, i))
    else if i == RING - 1 then Link(addr)
    else EMPTY
  }

  lemma SlotAfterOne(cmds: seq<Trb>, trb: Trb, addr: nat, i: nat)
    requires i < RING
    ensures SlotAfter(cmds + [trb], addr, i)
            == if i == |cmds| % RING then Queued(trb, |cmds|) else SlotAfter(cmds, addr, i)
  {
    var n := |cmds|;
    if i < n + 1 {
      NewestShape(n + 1, i);
      if i == n % 32 {
        SameSlot(Newest(n + 1, i), n);
      } else {
        if i < n {
          NewestShape(n, i);
          if Newest(n + 1, i) != Newest(n, i) {
            SameSlot(Newest(n + 1, i), Newest(n, i));
          }
        }
      }
    }
  }

  /** Two numbers for the same slot differ by whole laps. */
  lemma SameSlot(a: nat, b: nat)
    requires a % 32 == b % 32 && a < b + 32 && b < a + 32
    ensures a == b
  {
  }

  class CommandRing {
    const ring: array<Trb>
    const addr: nat
    var idx: nat
    var pcs: bool
    ghost var cmds: seq<Trb>

    /** init_cmd_ring */
    constructor (memory: array<Trb>, ringAddr: nat)
      requires memory.Length == RING
      modifies memory
      ensures Valid() && ring == memory && addr == ringAddr && cmds == [] && idx == 0 && pcs
      ensures ring[31] == Trb(ringAddr, 0, false, false, 0x1800)
      ensures forall j: nat :: j < 31 ==> ring[j] == Trb(0, 0, false, false, 0)
    {
      ring, addr, idx, pcs, cmds := memory, ringAddr, 0, true, [];
      new;
      for i := 0 to RING
        invariant idx == 0 && pcs && cmds == [] && forall j: nat :: j < i ==> ring[j] == EMPTY
      {
        ring[i] := EMPTY;
      }
      ring[RING - 1] := Link(addr);
    }

    /** The lap invariant after any number of commands. */
    ghost predicate Valid()
      reads this, ring
    {
      && ring.Length == RING
      && idx == |cmds| % RING && pcs == Phase(|cmds|)
      && forall i: nat :: i < RING ==> ring[i] == SlotAfter(cmds, addr, i)
    }

    /** queue_cmd */
    method QueueCmd(trb: Trb)
      requires Valid()
      modifies this, ring
      ensures Valid() && cmds == old(cmds) + [trb]
      ensures var i := old(idx);
        && i < 32 && ring[i].addr == trb.addr && ring[i].status == trb.status && ring[i].flags == trb.flags
        && ring[i].cycle == old(pcs) && ring[i].tc == (trb.tc || i == 31)
        && idx == (if i == 31 then 0 else i + 1) && pcs == (if i == 31 then !old(pcs) else old(pcs))
      ensures forall j: nat :: j < 32 && j != old(idx) ==> ring[j] == old(ring[j])
    {
      var t := trb.(cycle := pcs);
      NextIndex(|cmds|);
      forall i: nat | i < RING ensures SlotAfter(cmds + [trb], addr, i)
            == if i == |cmds| % RING then Queued(trb, |cmds|) else SlotAfter(cmds, addr, i) {
        SlotAfterOne(cmds, trb, addr, i);
      }
      ring[idx] := t;
      idx := idx + 1;
      if idx >= RING {
        var last := ring[RING - 1];
        last := last.(tc := true);
        if pcs {
          last := last.(cycle := true);
        }
        ring[RING - 1] := last;
        idx := 0;
        pcs := !pcs;
      }
      cmds := cmds + [trb];
    }
  }

  /** After any number of commands each slot carries the newest command for it, as the caller gave
      it and with the producer's cycle state of its lap; the others are as initialised. */
  lemma RingCarries(r: CommandRing, j: nat)
    requires r.Valid()
    ensures j < |r.cmds| <= j + 32 ==>
              var t := r.ring[j % 32];
              && t.addr == r.cmds[j].addr && t.status == r.cmds[j].status && t.flags == r.cmds[j].flags
              && t.cycle == (j / 32 % 2 == 0) && t.tc == (r.cmds[j].tc || j % 32 == 31)
    ensures |r.cmds| <= j < 31 ==> r.ring[j] == Trb(0, 0, false, false, 0)
    ensures |r.cmds| <= 31 ==> r.ring[31] == Trb(r.addr, 0, false, false, 0x1800)
  {
    var n := |r.cmds|;
    if j < n <= j + 32 {
      var i := j % 32;
      NewestShape(n, i);
      SameSlot(Newest(n, i), j);
    }
  }

  /** Slot `i`'s cycle bit equals the producer's cycle state exactly for the slots of this lap. */
  lemma CycleMarksLap(cmds: seq<Trb>, addr: nat, i: nat)
    requires i < RING
    ensures SlotAfter(cmds, addr, i).cycle == Phase(|cmds|) <==> i < |cmds| % RING
  {
    var n := |cmds|;
    if i < n {
      NewestShape(n, i);
      var j := Newest(n, i);
      LapOf(n, j, i);
    } else {
      assert n / 32 == 0;
    }
  }

  lemma LapOf(n: nat, j: nat, i: nat)
    requires j < n <= j + 32 && j % 32 == i
    ensures j / 32 == if i < n % 32 then n / 32 else n / 32 - 1
  {
  }

  /** The Link TRB survives exactly the first 31 commands: the 32nd takes its slot. */
  lemma LinkIntact(cmds: seq<Trb>, addr: nat)
    ensures SlotAfter(cmds, addr, RING - 1) == Link(addr) <==> |cmds| <= 31
  {
    if |cmds| > 31 {
      NewestShape(|cmds|, 31);
    }
  }

  datatype Fetch = Stops(done: seq<Trb>) | RunsOff(done: seq<Trb>)

  /** A controller working through the ring from slot `pos` with cycle state set: it stops at
      the first TRB it does not own, and leaves the segment if there is no Link TRB. */
  function Execute(ring: seq<Trb>, pos: nat): Fetch
    requires |ring| == RING && pos <= RING
    decreases RING - pos
  {
    if pos == RING then RunsOff([])
    else if !ring[pos].cycle || ring[pos].flags == LINK_TYPE then Stops([])
    else
      match Execute(ring, pos + 1)
      case Stops(d) => Stops([ring[pos]] + d)
      case RunsOff(d) => RunsOff([ring[pos]] + d)
  }

  ghost predicate NoLinks(cmds: seq<Trb>) {
    forall j: nat :: j < |cmds| ==> cmds[j].flags != LINK_TYPE
  }

  ghost predicate Shows(ring: seq<Trb>, cmds: seq<Trb>, addr: nat) {
    |ring| == RING && forall i: nat :: i < RING ==> ring[i] == SlotAfter(cmds, addr, i)
  }

  function Stamped(cmds: seq<Trb>): seq<Trb> {
    seq(|cmds|, j requires 0 <= j < |cmds| => Queued(cmds[j], j))
  }

  /** In the first lap the controller executes the queued commands in order; it stays inside
      the ring if and only if at most 31 have been queued. */
  lemma {:induction false} FirstLapExecutes(ring: seq<Trb>, cmds: seq<Trb>, addr: nat, pos: nat)
    requires Shows(ring, cmds, addr) && NoLinks(cmds) && pos <= |cmds| <= RING
    ensures Execute(ring, pos).done == Stamped(cmds)[pos..]
    ensures Execute(ring, pos).Stops? <==> |cmds| <= 31
    decreases RING - pos
  {
    if pos < |cmds| {
      NewestShape(|cmds|, pos);
      SameSlot(Newest(|cmds|, pos), pos);
      assert pos / 32 == 0 && ring[pos] == Queued(cmds[pos], pos);
      FirstLapExecutes(ring, cmds, addr, pos + 1);
      assert Stamped(cmds)[pos..] == [ring[pos]] + Stamped(cmds)[pos + 1..];
    } else if pos < RING {
      assert ring[pos] == SlotAfter(cmds, addr, pos);
    }
  }

  /** What the controller executes in the first lap: each command with the address, status and type
      it was queued with, in order; and it stays inside the ring for at most 31 of them. */
  lemma FirstLapFaithful(r: CommandRing, k: nat)
    requires r.Valid() && |r.cmds| <= 32 && forall j: nat :: j < |r.cmds| ==> r.cmds[j].flags != 0x1800
    ensures var e := Execute(r.ring[..], 0);
      && |e.done| == |r.cmds| && (e.Stops? <==> |r.cmds| <= 31)
      && (k < |r.cmds| ==>
            && e.done[k].addr == r.cmds[k].addr && e.done[k].status == r.cmds[k].status
            && e.done[k].flags == r.cmds[k].flags && e.done[k].cycle && e.done[k].tc == (r.cmds[k].tc || k == 31))
  {
    FirstLapExecutes(r.ring[..], r.cmds, r.addr, 0);
    assert Stamped(r.cmds)[0..] == Stamped(r.cmds);
    assert k < |r.cmds| ==> k / 32 == 0;
  }
}
