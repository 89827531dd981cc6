/**
 The recursive bus scan of src/pci/pci.c over an abstract configuration space.
 */
module PciEnumeration {

  type Bus = b: nat | b < 256

  /** Slot 0..31 and function 0..7 of a bus, as slot * 8 + function. */
  type Place = i: nat | i < 256

  /** The configuration words the scan reads: offsets 0, 0xa, 0x8 and 0x18. */
  datatype Header = Header(vendor: nat, classWord: nat, progWord: nat, busWord: nat)

  datatype Address = Address(bus: Bus, slot: nat, func: nat)

  /** A function that does not answer reads as all ones. */
  type Config = map<Address, Header>

  const NOTHING: Header := Header(0xffff, 0xffff, 0xffff, 0xffff)

  function Read(cfg: Config, bus: Bus, slot: nat, func: nat): Header {
    if Address(bus, slot, func) in cfg then cfg[Address(bus, slot, func)] else NOTHING
  }

  /** pci_dev_t */
  datatype Device = Device(bus: Bus, slot: nat, func: nat, baseClass: nat, subclass: nat, progIf: nat)

  function At(cfg: Config, bus: Bus, i: Place): Header {
    Read(cfg, bus, i / 8, i % 8)
  }

  predicate Exists(h: Header) { h.vendor % 0x10000 != 0xffff }

  predicate IsBridge(h: Header) { h.classWord / 0x100 % 0x100 == 6 && h.classWord % 0x100 == 4 }

  function Secondary(h: Header): Bus { h.busWord / 0x100 % 0x100 }

  function DeviceOf(cfg: Config, bus: Bus, i: Place): Device {
    var h := At(cfg, bus, i);
    Device(bus, i / 8, i % 8, h.classWord / 0x100 % 0x100, h.classWord % 0x100, h.progWord / 0x100 % 0x100)
  }

  ghost predicate BridgeTo(cfg: Config, bus: Bus, i: Place, target: Bus) {
    var h := At(cfg, bus, i); Exists(h) && IsBridge(h) && Secondary(h) == target
  }

  /** `n` bridges lead from one bus to the other. */
  ghost predicate Steps(cfg: Config, from: Bus, target: Bus, n: nat)
    decreases n
  {
    if n == 0 then from == target
    else exists i: Place, via: Bus :: BridgeTo(cfg, from, i, via) && Steps(cfg, via, target, n - 1)
  }

  ghost predicate Reach(cfg: Config, from: Bus, target: Bus) {
    exists n: nat :: Steps(cfg, from, target, n)
  }

  /** On the buses reachable from `top` bridges lead to higher bus numbers. */
  ghost predicate Ordered(cfg: Config, top: Bus) {
    forall bus: Bus, i: Place, target: Bus :: Reach(cfg, top, bus) && BridgeTo(cfg, bus, i, target) ==> bus < target
  }

  /** No bus has two bridges leading to it, as far as they are reachable from `top`. */
  ghost predicate OneParent(cfg: Config, top: Bus) {
    forall a: Bus, i: Place, b: Bus, j: Place, target: Bus ::
      Reach(cfg, top, a) && Reach(cfg, top, b) && BridgeTo(cfg, a, i, target) && BridgeTo(cfg, b, j, target) ==>
        a == b && i == j
  }

  lemma ReachSelf(cfg: Config, bus: Bus)
    ensures Reach(cfg, bus, bus)
  {
    assert Steps(cfg, bus, bus, 0);
  }

  lemma ReachOver(cfg: Config, from: Bus, i: Place, via: Bus, target: Bus)
    requires BridgeTo(cfg, from, i, via) && Reach(cfg, via, target)
    ensures Reach(cfg, from, target)
  {
    var n: nat :| Steps(cfg, via, target, n);
    assert Steps(cfg, from, target, n + 1);
  }

  lemma FirstBridge(cfg: Config, from: Bus, target: Bus) returns (i: Place, via: Bus)
    requires Reach(cfg, from, target) && from != target
    ensures BridgeTo(cfg, from, i, via) && Reach(cfg, via, target)
  {
    var n: nat :| Steps(cfg, from, target, n);
    i, via :| BridgeTo(cfg, from, i, via) && Steps(cfg, via, target, n - 1);
  }

  lemma {:induction false} StepsJoin(cfg: Config, a: Bus, b: Bus, c: Bus, n: nat)
    requires Steps(cfg, a, b, n) && Reach(cfg, b, c)
    ensures Reach(cfg, a, c)
    decreases n
  {
    if n > 0 {
      var i: Place, via: Bus :| BridgeTo(cfg, a, i, via) && Steps(cfg, via, b, n - 1);
      StepsJoin(cfg, via, b, c, n - 1);
      ReachOver(cfg, a, i, via, c);
    }
  }

  lemma ReachTransitive(cfg: Config, a: Bus, b: Bus, c: Bus)
    requires Reach(cfg, a, b) && Reach(cfg, b, c)
    ensures Reach(cfg, a, c)
  {
    var n: nat :| Steps(cfg, a, b, n);
    StepsJoin(cfg, a, b, c, n);
  }

  /** What holds below `top` holds below every bus reachable from it. */
  lemma OrderedBelow(cfg: Config, top: Bus, bus: Bus)
    requires Ordered(cfg, top) && Reach(cfg, top, bus)
    ensures Ordered(cfg, bus)
  {
    forall b: Bus | Reach(cfg, bus, b) ensures Reach(cfg, top, b) { ReachTransitive(cfg, top, bus, b); }
  }

  lemma Onward(cfg: Config, bus: Bus, i: Place, via: Bus)
    requires Ordered(cfg, bus) && BridgeTo(cfg, bus, i, via)
    ensures bus < via && Reach(cfg, bus, via) && Ordered(cfg, via)
  {
    ReachSelf(cfg, bus);
    ReachSelf(cfg, via);
    ReachOver(cfg, bus, i, via, via);
    OrderedBelow(cfg, bus, via);
  }

  // ---------- the depth-first order ----------

  ghost function Visit(cfg: Config, bus: Bus, i: Place): seq<Device>
    requires Ordered(cfg, bus)
    decreases 256 - bus, 0
  {
    var h := At(cfg, bus, i);
    if !Exists(h) then []
    else if IsBridge(h) then
      assert BridgeTo(cfg, bus, i, Secondary(h));
      Onward(cfg, bus, i, Secondary(h));
      Scan(cfg, Secondary(h))
    else [DeviceOf(cfg, bus, i)]
  }

  ghost function ScanFrom(cfg: Config, bus: Bus, i: nat): seq<Device>
    requires Ordered(cfg, bus) && i <= 256
    decreases 256 - bus, 1, 256 - i
  {
    if i == 256 then [] else Visit(cfg, bus, i) + ScanFrom(cfg, bus, i + 1)
  }

  ghost function Scan(cfg: Config, bus: Bus): seq<Device>
    requires Ordered(cfg, bus)
    decreases 256 - bus, 2
  {
    ScanFrom(cfg, bus, 0)
  }

  /** The static table of found devices. */
  class DeviceTable {
    const cfg: Config
    const devs: array<Device>
    var len: nat

    constructor (space: Config, memory: array<Device>)
      ensures cfg == space && devs == memory && len == 0
    {
      cfg, devs, len := space, memory, 0;
    }

    ghost function Found(): seq<Device>
      reads this, devs
      requires len <= devs.Length
    {
      devs[..len]
    }

    /** check_func, on a function that answers */
    method CheckFunc(bus: Bus, slot: nat, func: nat)
      requires Ordered(cfg, bus) && slot < 32 && func < 8 && Exists(Read(cfg, bus, slot, func))
      requires len + |Visit(cfg, bus, slot * 8 + func)| <= devs.Length
      modifies this, devs
      ensures len <= devs.Length && Found() == old(devs[..len]) + Visit(cfg, bus, slot * 8 + func)
      decreases 256 - bus, 0
    {
      ghost var i: Place := slot * 8 + func;
      assert i / 8 == slot && i % 8 == func;
      var h := Read(cfg, bus, slot, func);
      var baseClass := h.classWord / 0x100 % 0x100;
      var subClass := h.classWord % 0x100;
      var progIf := h.progWord / 0x100 % 0x100;
      if baseClass == 6 && subClass == 4 {
        assert BridgeTo(cfg, bus, i, Secondary(h));
        Onward(cfg, bus, i, Secondary(h));
        CheckBus(h.busWord / 0x100 % 0x100);
      } else {
        devs[len] := Device(bus, slot, func, baseClass, subClass, progIf);
        len := len + 1;
      }
    }

    /** check_bus */
    method CheckBus(bus: Bus)
      requires Ordered(cfg, bus) && len + |Scan(cfg, bus)| <= devs.Length
      modifies this, devs
      ensures len <= devs.Length && Found() == old(devs[..len]) + Scan(cfg, bus)
      decreases 256 - bus, 2
    {
      ghost var all := devs[..len] + Scan(cfg, bus);
      for dev := 0 to 32
        invariant Remaining(bus, dev * 8, all)
      {
        for func := 0 to 8
          invariant Remaining(bus, dev * 8 + func, all)
        {
          CheckPlace(bus, dev, func, all);
        }
      }
    }

    /** What is in the table and what is still to come from place `i` on make up `all`. */
    ghost predicate Remaining(bus: Bus, i: nat, all: seq<Device>)
      reads this, devs
      requires Ordered(cfg, bus) && i <= 256
    {
      len <= devs.Length && |all| <= devs.Length && Found() + ScanFrom(cfg, bus, i) == all
    }

    /** The body of the inner loop. */
    method CheckPlace(bus: Bus, dev: nat, func: nat, ghost all: seq<Device>)
      requires Ordered(cfg, bus) && dev < 32 && func < 8 && Remaining(bus, dev * 8 + func, all)
      modifies this, devs
      ensures Remaining(bus, dev * 8 + func + 1, all)
      decreases 256 - bus, 1
    {
      ghost var i: Place := dev * 8 + func;
      ghost var found := Found();
      assert i / 8 == dev && i % 8 == func;
      assert ScanFrom(cfg, bus, i) == Visit(cfg, bus, i) + ScanFrom(cfg, bus, i + 1);
      if Read(cfg, bus, dev, func).vendor % 0x10000 != 0xffff {
        CheckFunc(bus, dev, func);
      }
      assert Found() == found + Visit(cfg, bus, i);
    }
  }

  // ---------- every device of every reachable bus, once ----------

  ghost predicate IsDevice(cfg: Config, d: Device) {
    exists i: Place :: DeviceAt(cfg, d, i)
  }

  ghost predicate DeviceAt(cfg: Config, d: Device, i: Place) {
    Exists(At(cfg, d.bus, i)) && !IsBridge(At(cfg, d.bus, i)) && d == DeviceOf(cfg, d.bus, i)
  }

  /** The function at this place is the device itself. */
  ghost predicate Here(cfg: Config, bus: Bus, i: Place, d: Device) {
    d.bus == bus && DeviceAt(cfg, d, i)
  }

  /** The function at this place is a bridge on the way to the device. */
  ghost predicate Below(cfg: Config, bus: Bus, i: Place, d: Device) {
    exists via: Bus :: BridgeTo(cfg, bus, i, via) && Reach(cfg, via, d.bus)
  }

  lemma {:induction false} ReachOrdered(cfg: Config, from: Bus, target: Bus)
    requires Ordered(cfg, from) && Reach(cfg, from, target)
    ensures from <= target
    decreases 256 - from
  {
    if from != target {
      var i, via := FirstBridge(cfg, from, target);
      Onward(cfg, from, i, via);
      ReachOrdered(cfg, via, target);
    }
  }

  ghost predicate FoundFrom(cfg: Config, bus: Bus, i: nat, d: Device)
    requires Ordered(cfg, bus)
  {
    exists j: Place :: i <= j && d in Visit(cfg, bus, j)
  }

  /** The scan finds exactly the devices on the buses reachable from its starting bus. */
  lemma {:induction false} ScanExact(cfg: Config, bus: Bus, d: Device)
    requires Ordered(cfg, bus)
    ensures d in Scan(cfg, bus) <==> IsDevice(cfg, d) && Reach(cfg, bus, d.bus)
    decreases 256 - bus, 2
  {
    ScanFromExact(cfg, bus, 0, d);
    if IsDevice(cfg, d) && Reach(cfg, bus, d.bus) {
      ScanFinds(cfg, bus, d);
    }
    if FoundFrom(cfg, bus, 0, d) {
      var i: Place :| 0 <= i && d in Visit(cfg, bus, i);
      VisitExact(cfg, bus, i, d);
    }
  }

  lemma {:induction false} ScanFinds(cfg: Config, bus: Bus, d: Device)
    requires Ordered(cfg, bus) && IsDevice(cfg, d) && Reach(cfg, bus, d.bus)
    ensures FoundFrom(cfg, bus, 0, d)
    decreases 256 - bus, 1
  {
    if d.bus == bus {
      var i: Place :| DeviceAt(cfg, d, i);
      assert d in Visit(cfg, bus, i);
    } else {
      var i, via := FirstBridge(cfg, bus, d.bus);
      Onward(cfg, bus, i, via);
      ScanExact(cfg, via, d);
      assert Visit(cfg, bus, i) == Scan(cfg, via);
      assert d in Visit(cfg, bus, i);
    }
  }

  lemma {:induction false} ScanFromExact(cfg: Config, bus: Bus, i: nat, d: Device)
    requires Ordered(cfg, bus) && i <= 256
    ensures d in ScanFrom(cfg, bus, i) <==> FoundFrom(cfg, bus, i, d)
    decreases 256 - i
  {
    if i < 256 {
      ScanFromExact(cfg, bus, i + 1, d);
      if FoundFrom(cfg, bus, i + 1, d) {
        var j: Place :| i + 1 <= j && d in Visit(cfg, bus, j);
        assert i <= j;
      }
      if FoundFrom(cfg, bus, i, d) && d !in Visit(cfg, bus, i) {
        var j: Place :| i <= j && d in Visit(cfg, bus, j);
        assert i + 1 <= j;
      }
    }
  }

  lemma {:induction false} VisitExact(cfg: Config, bus: Bus, i: Place, d: Device)
    requires Ordered(cfg, bus)
    ensures d in Visit(cfg, bus, i) ==> IsDevice(cfg, d) && Reach(cfg, bus, d.bus)
    ensures d in Visit(cfg, bus, i) ==> Here(cfg, bus, i, d) || Below(cfg, bus, i, d)
    decreases 256 - bus, 0
  {
    var h := At(cfg, bus, i);
    if Exists(h) && d in Visit(cfg, bus, i) {
      if IsBridge(h) {
        assert BridgeTo(cfg, bus, i, Secondary(h));
        Onward(cfg, bus, i, Secondary(h));
        ScanExact(cfg, Secondary(h), d);
        ReachOver(cfg, bus, i, Secondary(h), d.bus);
      } else {
        assert DeviceAt(cfg, d, i);
        ReachSelf(cfg, bus);
      }
    }
  }

  /** The last bridge on the way. */
  lemma {:induction false} LastBridge(cfg: Config, from: Bus, target: Bus) returns (parent: Bus, i: Place)
    requires Ordered(cfg, from) && Reach(cfg, from, target) && from != target
    ensures BridgeTo(cfg, parent, i, target) && Reach(cfg, from, parent) && parent < target
    decreases 256 - from
  {
    var j, via := FirstBridge(cfg, from, target);
    Onward(cfg, from, j, via);
    if via == target {
      parent, i := from, j;
      ReachSelf(cfg, from);
    } else {
      parent, i := LastBridge(cfg, via, target);
      ReachOver(cfg, from, j, via, parent);
    }
  }

  /** Two buses below `top` that reach the same bus in a tree lie on one line. */
  lemma {:induction false} OnOneLine(cfg: Config, top: Bus, a: Bus, b: Bus, target: Bus)
    requires Ordered(cfg, top) && OneParent(cfg, top) && Reach(cfg, top, a) && Reach(cfg, top, b)
    requires Reach(cfg, a, target) && Reach(cfg, b, target)
    ensures Reach(cfg, a, b) || Reach(cfg, b, a)
    decreases target
  {
    if a != target && b != target {
      OrderedBelow(cfg, top, a);
      OrderedBelow(cfg, top, b);
      var p, i := LastBridge(cfg, a, target);
      var q, j := LastBridge(cfg, b, target);
      ReachTransitive(cfg, top, a, p);
      ReachTransitive(cfg, top, b, q);
      OnOneLine(cfg, top, a, b, p);
    }
  }

  /** Different places of a bus lead to different devices. */
  lemma PlacesApart(cfg: Config, bus: Bus, i: Place, j: Place, d: Device)
    requires Ordered(cfg, bus) && OneParent(cfg, bus) && i != j && d in Visit(cfg, bus, i)
    ensures d !in Visit(cfg, bus, j)
  {
    VisitExact(cfg, bus, i, d);
    VisitExact(cfg, bus, j, d);
    BelowIsHigher(cfg, bus, i, d);
    BelowIsHigher(cfg, bus, j, d);
    if Below(cfg, bus, i, d) && Below(cfg, bus, j, d) {
      SameBridge(cfg, bus, i, j, d);
    }
  }

  lemma BelowIsHigher(cfg: Config, bus: Bus, i: Place, d: Device)
    requires Ordered(cfg, bus)
    ensures Below(cfg, bus, i, d) ==> bus < d.bus
  {
    if Below(cfg, bus, i, d) {
      var via: Bus :| BridgeTo(cfg, bus, i, via) && Reach(cfg, via, d.bus);
      Onward(cfg, bus, i, via);
      ReachOrdered(cfg, via, d.bus);
    }
  }

  lemma SameBridge(cfg: Config, bus: Bus, i: Place, j: Place, d: Device)
    requires Ordered(cfg, bus) && OneParent(cfg, bus) && Below(cfg, bus, i, d) && Below(cfg, bus, j, d)
    ensures i == j
  {
    var a: Bus :| BridgeTo(cfg, bus, i, a) && Reach(cfg, a, d.bus);
    var b: Bus :| BridgeTo(cfg, bus, j, b) && Reach(cfg, b, d.bus);
    Onward(cfg, bus, i, a);
    Onward(cfg, bus, j, b);
    OnOneLine(cfg, bus, a, b, d.bus);
    if Reach(cfg, a, b) {
      BelowOnly(cfg, bus, j, a, b);
    } else {
      BelowOnly(cfg, bus, i, b, a);
    }
    ReachSelf(cfg, bus);
  }

  /** A bus right below `bus` is reached from no other bus below `bus`. */
  lemma BelowOnly(cfg: Config, bus: Bus, i: Place, from: Bus, target: Bus)
    requires Ordered(cfg, bus) && OneParent(cfg, bus) && BridgeTo(cfg, bus, i, target)
    requires Reach(cfg, bus, from) && Reach(cfg, from, target) && bus < from
    ensures from == target
  {
    if from != target {
      OrderedBelow(cfg, bus, from);
      var p, j := LastBridge(cfg, from, target);
      ReachOrdered(cfg, from, p);
      ReachTransitive(cfg, bus, from, p);
      ReachSelf(cfg, bus);
    }
  }

  ghost predicate NoRepeats(s: seq<Device>) {
    forall a: nat, b: nat :: a < b < |s| ==> s[a] != s[b]
  }

  /** In a tree of buses the scan lists no device twice. */
  lemma {:induction false} ScanOnce(cfg: Config, bus: Bus)
    requires Ordered(cfg, bus) && OneParent(cfg, bus)
    ensures NoRepeats(Scan(cfg, bus))
    decreases 256 - bus, 2, 0
  {
    ScanFromOnce(cfg, bus, 0);
  }

  lemma {:induction false} ScanFromOnce(cfg: Config, bus: Bus, i: nat)
    requires Ordered(cfg, bus) && OneParent(cfg, bus) && i <= 256
    ensures NoRepeats(ScanFrom(cfg, bus, i))
    decreases 256 - bus, 1, 256 - i
  {
    if i < 256 {
      VisitOnce(cfg, bus, i);
      ScanFromOnce(cfg, bus, i + 1);
      var s, t := Visit(cfg, bus, i), ScanFrom(cfg, bus, i + 1);
      forall a: nat, b: nat | a < b < |s + t| ensures (s + t)[a] != (s + t)[b] {
        if a < |s| <= b {
          var d := s[a];
          ScanFromExact(cfg, bus, i + 1, d);
          forall j: Place | i + 1 <= j ensures d !in Visit(cfg, bus, j) {
            PlacesApart(cfg, bus, i, j, d);
          }
          assert t[b - |s|] in t;
        }
      }
    }
  }

  lemma {:induction false} VisitOnce(cfg: Config, bus: Bus, i: Place)
    requires Ordered(cfg, bus) && OneParent(cfg, bus)
    ensures NoRepeats(Visit(cfg, bus, i))
    decreases 256 - bus, 0, 0
  {
    var h := At(cfg, bus, i);
    if Exists(h) && IsBridge(h) {
      assert BridgeTo(cfg, bus, i, Secondary(h));
      Onward(cfg, bus, i, Secondary(h));
      OneParentBelow(cfg, bus, Secondary(h));
      ScanOnce(cfg, Secondary(h));
    }
  }

  lemma OneParentBelow(cfg: Config, top: Bus, bus: Bus)
    requires OneParent(cfg, top) && Reach(cfg, top, bus)
    ensures OneParent(cfg, bus)
  {
    forall b: Bus | Reach(cfg, bus, b) ensures Reach(cfg, top, b) { ReachTransitive(cfg, top, bus, b); }
  }

  // ---------- in terms of the configuration words ----------

  /** A bridge to bus `target`: the function answers, its class is 6, its subclass 4, and the upper
      byte of the word at 0x18 names the bus. */
  lemma BridgeBytes(cfg: Config, bus: Bus, slot: nat, func: nat, target: Bus)
    requires slot < 32 && func < 8
    ensures BridgeTo(cfg, bus, slot * 8 + func, target)
            <==> var h := Read(cfg, bus, slot, func);
                 && h.vendor % 0x10000 != 0xffff && h.classWord % 0x10000 == 0x0604
                 && 0x100 * target <= h.busWord % 0x10000 < 0x100 * target + 0x100
  {
    PlaceOf(slot, func);
    WordBytes(Read(cfg, bus, slot, func).classWord, 6, 4);
    UpperByte(Read(cfg, bus, slot, func).busWord, target);
  }

  lemma PlaceOf(slot: nat, func: nat)
    requires slot < 32 && func < 8
    ensures slot * 8 + func < 256 && (slot * 8 + func) / 8 == slot && (slot * 8 + func) % 8 == func
  {
  }

  lemma WordBytes(w: nat, high: nat, low: nat)
    requires high < 0x100 && low < 0x100
    ensures w / 0x100 % 0x100 == high && w % 0x100 == low <==> w % 0x10000 == high * 0x100 + low
  {
    LowWord(w);
    Halves(w % 0x10000, w / 0x100 % 0x100, w % 0x100, high, low);
  }

  lemma UpperByte(w: nat, b: nat)
    requires b < 0x100
    ensures w / 0x100 % 0x100 == b <==> 0x100 * b <= w % 0x10000 < 0x100 * b + 0x100
  {
    LowWord(w);
    Halves(w % 0x10000, w / 0x100 % 0x100, w % 0x100, b, 0);
  }

  lemma LowWord(w: nat)
    ensures w % 0x10000 == w / 0x100 % 0x100 * 0x100 + w % 0x100
  {
  }

  lemma Halves(x: nat, y: nat, z: nat, high: nat, low: nat)
    requires x == y * 0x100 + z && z < 0x100 && low < 0x100
    ensures y == high && z == low <==> x == high * 0x100 + low
    ensures y == high <==> 0x100 * high <= x < 0x100 * high + 0x100
  {
  }

  /** The scan lists a device if and only if it stands at some slot and function of a reachable bus
      that answers and is no bridge, and its class, subclass and programming interface are the bytes
      of that function's header. */
  lemma ScanBytes(cfg: Config, bus: Bus, d: Device)
    requires Ordered(cfg, bus)
    ensures d in Scan(cfg, bus)
            <==> && Reach(cfg, bus, d.bus) && d.slot < 32 && d.func < 8
                 && var h := Read(cfg, d.bus, d.slot, d.func);
                 && h.vendor % 0x10000 != 0xffff && h.classWord % 0x10000 != 0x0604
                 && d.baseClass < 0x100 && d.subclass < 0x100 && d.progIf < 0x100
                 && h.classWord % 0x10000 == d.baseClass * 0x100 + d.subclass
                 && 0x100 * d.progIf <= h.progWord % 0x10000 < 0x100 * d.progIf + 0x100
  {
    ScanExact(cfg, bus, d);
    forall i: Place ensures DeviceAt(cfg, d, i) <==> i == d.slot * 8 + d.func && DeviceBytes(cfg, d) {
      DeviceAtBytes(cfg, d, i);
    }
    if d.slot < 32 && d.func < 8 {
      PlaceOf(d.slot, d.func);
      assert DeviceBytes(cfg, d) ==> DeviceAt(cfg, d, d.slot * 8 + d.func);
    }
  }

  ghost predicate DeviceBytes(cfg: Config, d: Device) {
    && d.slot < 32 && d.func < 8
    && var h := Read(cfg, d.bus, d.slot, d.func);
    && h.vendor % 0x10000 != 0xffff && h.classWord % 0x10000 != 0x0604
    && d.baseClass < 0x100 && d.subclass < 0x100 && d.progIf < 0x100
    && h.classWord % 0x10000 == d.baseClass * 0x100 + d.subclass
    && 0x100 * d.progIf <= h.progWord % 0x10000 < 0x100 * d.progIf + 0x100
  }

  lemma DeviceAtBytes(cfg: Config, d: Device, i: Place)
    ensures DeviceAt(cfg, d, i) <==> i == d.slot * 8 + d.func && DeviceBytes(cfg, d)
  {
    var h := At(cfg, d.bus, i);
    PlaceOf(i / 8, i % 8);
    WordBytes(h.classWord, 6, 4);
    if DeviceAt(cfg, d, i) {
      WordBytes(h.classWord, d.baseClass, d.subclass);
      UpperByte(h.progWord, d.progIf);
    }
    if i == d.slot * 8 + d.func && DeviceBytes(cfg, d) {
      PlaceOf(d.slot, d.func);
      WordBytes(h.classWord, d.baseClass, d.subclass);
      UpperByte(h.progWord, d.progIf);
    }
  }

  // ---------- a small machine ----------

  /** A host bridge, a PCI bridge to bus 1 with an xHCI controller behind it, and an AHCI controller. */
  function SmallConfig(): Config {
    map[Address(0, 0, 0) := Header(0x8086, 0x0600, 0, 0),
        Address(0, 1, 0) := Header(0x8086, 0x0604, 0, 0x0100),
        Address(0, 31, 2) := Header(0x8086, 0x0106, 0x0102, 0),
        Address(1, 0, 0) := Header(0x1b73, 0x0c03, 0x3010, 0)]
  }

  lemma SmallBridge(bus: Bus, i: Place, target: Bus)
    ensures BridgeTo(SmallConfig(), bus, i, target) <==> bus == 0 && i == 8 && target == 1
  {
    PlaceOf(i / 8, i % 8);
  }

  lemma SmallReach(bus: Bus)
    ensures Reach(SmallConfig(), 0, bus) <==> bus <= 1
  {
    var cfg := SmallConfig();
    SmallBridge(0, 8, 1);
    ReachSelf(cfg, bus);
    if bus == 1 { ReachOver(cfg, 0, 8, 1, 1); }
    if Reach(cfg, 0, bus) && bus != 0 {
      var i, via := FirstBridge(cfg, 0, bus);
      SmallBridge(0, i, via);
      if bus != 1 {
        var j, next := FirstBridge(cfg, 1, bus);
        SmallBridge(1, j, next);
      }
    }
  }

  lemma SmallTree()
    ensures Ordered(SmallConfig(), 0) && OneParent(SmallConfig(), 0)
  {
    forall bus: Bus, i: Place, target: Bus
      ensures BridgeTo(SmallConfig(), bus, i, target) <==> bus == 0 && i == 8 && target == 1
    {
      SmallBridge(bus, i, target);
    }
  }

  lemma SmallDevices(d: Device)
    ensures DeviceBytes(SmallConfig(), d)
            <==> d == Device(0, 0, 0, 6, 0, 0) || d == Device(0, 31, 2, 1, 6, 1) || d == Device(1, 0, 0, 0xc, 3, 0x30)
  {
    var h := Read(SmallConfig(), d.bus, d.slot, d.func);
    if Address(d.bus, d.slot, d.func) !in SmallConfig() {
      assert h == NOTHING;
    }
  }

  /** Its scan lists the host bridge and both controllers, and nothing else. */
  lemma SmallScan(cfg: Config, d: Device)
    requires cfg == SmallConfig() && Ordered(cfg, 0)
    ensures d in Scan(cfg, 0)
            <==> d == Device(0, 0, 0, 6, 0, 0) || d == Device(0, 31, 2, 1, 6, 1) || d == Device(1, 0, 0, 0xc, 3, 0x30)
  {
    SmallReach(d.bus);
    SmallDevices(d);
    ScanBytes(cfg, 0, d);
  }
}
