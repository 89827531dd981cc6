/**
 Reading and writing sectors through src/driver/ahci/ahci.c: a request is split into commands,
 a command's buffer into PRDT entries (section 4.2.3.3 of AHCI 1.3.1), and a device carries the
 commands out by DMA.
 */
module AhciTransfers {
  import opened Wrappers

  const MAX_PRDTS: nat := 1024
  const CHUNK: nat := 0x400000              // sectors that fit MAX_PRDTS entries
  const COUNT_LIMIT: nat := 0x10000         // what the 16-bit FIS count can express
  const LBA_LIMIT: nat := 0x1_0000_0000_0000  // what the six address bytes of the FIS can express

  type Byte = bv8

  /** A PRDT entry: where, and how many bytes. */
  datatype Prd = Prd(addr: nat, len: nat)

  /** An entry as it is stored: the address in two halves, and in 22 bits one byte less than there
      are. */
  datatype PrdWords = PrdWords(dba: nat, dbau: nat, dbc: nat)

  /** What the device makes of it. */
  function Decode(w: PrdWords): Prd {
    Prd(w.dbau * 0x1_0000_0000 + w.dba, w.dbc + 1)
  }

  /** The command FIS as far as it is filled in. */
  datatype Fis = Fis(cmd: nat, lba0: nat, lba1: nat, lba2: nat, lba3: nat, lba4: nat, lba5: nat,
                     countl: nat, counth: nat)

  /** A command as the device sees it; `count` is the 16-bit count of the FIS. */
  datatype Command = Command(write: bool, lba: nat, count: nat, prdt: seq<Prd>)

  /** The device's reading of a FIS and a table: READ DMA EXT is 0x25, WRITE DMA EXT 0x35. */
  function Decoded(fis: Fis, table: seq<PrdWords>): (c: Command)
    ensures |c.prdt| == |table| && forall i: nat :: i < |table| ==> c.prdt[i] == Decode(table[i])
  {
    Command(fis.cmd == 0x35,
            fis.lba0 + 0x100 * (fis.lba1 + 0x100 * (fis.lba2 + 0x100 * (fis.lba3
                     + 0x100 * (fis.lba4 + 0x100 * fis.lba5)))),
            fis.countl + 0x100 * fis.counth,
            seq(|table|, i requires 0 <= i < |table| => Decode(table[i])))
  }

  /** The FIS of send_rw_cmd: the device reads 48 bits of the sector number and 16 of the count. */
  method FillFis(lba: nat, n: nat, write: bool) returns (fis: Fis)
    ensures fis.cmd == (if write then 0x35 else 0x25)
    ensures forall table: seq<PrdWords> ::
              var c := Decoded(fis, table);
              c.write == write && c.lba == lba % 0x1_0000_0000_0000 && c.count == n % 0x10000
  {
    fis := Fis(if write then 0x35 else 0x25, lba % 0x100, lba / 0x100 % 0x100, lba / 0x1_0000 % 0x100,
               lba / 0x100_0000 % 0x100, lba / 0x1_0000_0000 % 0x100, lba / 0x100_0000_0000 % 0x100,
               n % 0x100, n / 0x100 % 0x100);
    SixBytes(lba);
    TwoBytes(n, 0x100);
  }

  /** The last byte and what is above it. */
  lemma TwoBytes(x: nat, k: nat)
    requires k > 0
    ensures x % (0x100 * k) == x % 0x100 + 0x100 * (x / 0x100 % k)
  {
    var q := x / 0x100;
    var d, r := q / k, q % k;
    assert x == 0x100 * (k * d + r) + x % 0x100;
    assert x == (0x100 * k) * d + (0x100 * r + x % 0x100);
    assert 0x100 * r + x % 0x100 < 0x100 * k;
    RestUnique(x, 0x100 * k, d, 0x100 * r + x % 0x100);
  }

  lemma RestUnique(x: nat, m: nat, q: nat, r: nat)
    requires m > 0 && x == m * q + r && r < m
    ensures x % m == r
  {
    var e := q - x / m;
    assert m * e == x % m - r;
    assert e >= 1 ==> m * e >= m;
    assert e <= -1 ==> m * e + m <= 0;
  }

  lemma SixBytes(x: nat)
    ensures x % 0x1_0000_0000_0000
            == x % 0x100 + 0x100 * (x / 0x100 % 0x100 + 0x100 * (x / 0x1_0000 % 0x100 + 0x100 * (x / 0x100_0000 % 0x100
               + 0x100 * (x / 0x1_0000_0000 % 0x100 + 0x100 * (x / 0x100_0000_0000 % 0x100)))))
  {
    TwoBytes(x, 0x100_0000_0000);
    TwoBytes(x / 0x100, 0x1_0000_0000);
    TwoBytes(x / 0x1_0000, 0x100_0000);
    TwoBytes(x / 0x100_0000, 0x1_0000);
    TwoBytes(x / 0x1_0000_0000, 0x100);
    NextByte(x);
  }

  lemma NextByte(x: nat)
    ensures x / 0x100 / 0x100 == x / 0x1_0000 && x / 0x1_0000 / 0x100 == x / 0x100_0000
    ensures x / 0x100_0000 / 0x100 == x / 0x1_0000_0000 && x / 0x1_0000_0000 / 0x100 == x / 0x100_0000_0000
  {
  }

  // ---------- PRDT entries ----------

  /** An entry of 1 byte to 4 MiB below 2^64 is stored without loss. */
  method StorePrd(buf: nat, len: nat) returns (w: PrdWords)
    requires buf < 0x1_0000_0000_0000_0000 && 1 <= len <= 0x40_0000
    ensures Decode(w) == Prd(buf, len) && w.dba < 0x1_0000_0000 && w.dbau < 0x1_0000_0000 && w.dbc < 0x40_0000
  {
    w := PrdWords(buf % 0x1_0000_0000, buf / 0x1_0000_0000 % 0x1_0000_0000, (len - 1) % 0x40_0000);
  }

  /** Entry `i` of a table of `n` entries for `size` bytes at `buffer`. */
  function PrdAt(buffer: nat, size: nat, n: nat, i: nat): Prd
    requires i < n && (n - 1) * 0x200000 <= size
  {
    Prd(buffer + i * 0x200000, if i < n - 1 then 0x200000 else size - (n - 1) * 0x200000)
  }

  /** The entries follow each other without gap or overlap from `buffer` for `size` bytes. */
  ghost predicate Tiles(prdt: seq<Prd>, buffer: nat, size: nat)
    decreases |prdt|
  {
    if prdt == [] then size == 0
    else
      && prdt[0].addr == buffer && 1 <= prdt[0].len <= size
      && Tiles(prdt[1..], buffer + prdt[0].len, size - prdt[0].len)
  }

  /** set_prdts: fills the table of a command header in place. */
  method SetPrdts(table: array<PrdWords>, prdtl: nat, buffer: nat, size: nat)
    requires 1 <= prdtl <= table.Length && (prdtl - 1) * 0x200000 < size <= (prdtl - 1) * 0x200000 + 0x400000
    requires buffer + size <= 0x1_0000_0000_0000_0000
    modifies table
    ensures forall i: nat :: i < prdtl ==> Decode(table[i]) == PrdAt(buffer, size, prdtl, i)
  {
    var buf, rest := buffer, size;
    for i := 0 to prdtl - 1
      invariant buf == buffer + i * 0x200000 && rest == size - i * 0x200000
      invariant forall j: nat :: j < i ==> Decode(table[j]) == PrdAt(buffer, size, prdtl, j)
    {
      table[i] := StorePrd(buf, 0x200000);
      buf := buf + 0x200000;
      rest := rest - 0x200000;
    }
    table[prdtl - 1] := StorePrd(buf, rest);
  }

  /** The entries from `i` on tile the rest of the buffer; none is longer than 2 MiB. */
  lemma {:induction false} PrdsTile(prdt: seq<Prd>, buffer: nat, size: nat, i: nat)
    requires |prdt| >= 1 && (|prdt| - 1) * 0x200000 < size <= |prdt| * 0x200000 && i <= |prdt|
    requires forall j: nat :: j < |prdt| ==> prdt[j] == PrdAt(buffer, size, |prdt|, j)
    ensures i < |prdt| ==> Tiles(prdt[i..], buffer + i * 0x200000, size - i * 0x200000)
    ensures forall j: nat :: i <= j < |prdt| ==> 1 <= prdt[j].len <= 0x200000
    decreases |prdt| - i
  {
    if i < |prdt| {
      PrdsTile(prdt, buffer, size, i + 1);
      assert prdt[i..][0] == prdt[i] && prdt[i..][1..] == prdt[i + 1..];
      if i == |prdt| - 1 {
        assert prdt[i + 1..] == [];
      }
    }
  }

  // ---------- the device ----------

  /** `data` written over `s` from `at` on. */
  function Splice(s: seq<Byte>, at: nat, data: seq<Byte>): (r: seq<Byte>)
    requires at + |data| <= |s|
    ensures |r| == |s|
    ensures forall k: nat :: k < |s| ==> r[k] == if at <= k < at + |data| then data[k - at] else s[k]
  {
    s[..at] + data + s[at + |data|..]
  }

  ghost predicate InMemory(mem: seq<Byte>, prdt: seq<Prd>) {
    forall i: nat :: i < |prdt| ==> prdt[i].addr + prdt[i].len <= |mem|
  }

  /** The bytes the entries of a table describe, in order. */
  function Gather(mem: seq<Byte>, prdt: seq<Prd>): seq<Byte>
    requires InMemory(mem, prdt)
    decreases |prdt|
  {
    if prdt == [] then []
    else mem[prdt[0].addr..prdt[0].addr + prdt[0].len] + Gather(mem, prdt[1..])
  }

  /** `data` stored entry after entry, until it ends. */
  function Scatter(mem: seq<Byte>, prdt: seq<Prd>, data: seq<Byte>): (r: seq<Byte>)
    requires InMemory(mem, prdt)
    ensures |r| == |mem|
    decreases |prdt|
  {
    if prdt == [] then mem
    else
      var n := if prdt[0].len <= |data| then prdt[0].len else |data|;
      Scatter(Splice(mem, prdt[0].addr, data[..n]), prdt[1..], data[n..])
  }

  /** Sectors the device transfers for a count field: zero stands for 65536. */
  function Transferred(count: nat): nat {
    if count == 0 then COUNT_LIMIT else count
  }

  datatype World = World(mem: seq<Byte>, disk: seq<Byte>)

  function Min(a: nat, b: nat): nat { if a <= b then a else b }

  /** READ DMA EXT and WRITE DMA EXT; a range past the end of the disk is rejected. */
  function Perform(w: World, c: Command): World
    requires InMemory(w.mem, c.prdt)
  {
    var n := Transferred(c.count) * 512;
    if c.lba * 512 + n > |w.disk| then w
    else if c.write then
      var data := Gather(w.mem, c.prdt);
      w.(disk := Splice(w.disk, c.lba * 512, data[..Min(n, |data|)]))
    else w.(mem := Scatter(w.mem, c.prdt, w.disk[c.lba * 512..c.lba * 512 + n]))
  }

  /** A tiling table reads and writes one contiguous piece of memory. */
  lemma {:induction false} GatherTiled(mem: seq<Byte>, prdt: seq<Prd>, buffer: nat, size: nat)
    requires Tiles(prdt, buffer, size) && buffer + size <= |mem| && InMemory(mem, prdt)
    ensures Gather(mem, prdt) == mem[buffer..buffer + size]
    decreases |prdt|
  {
    if prdt != [] {
      var n := prdt[0].len;
      assert forall i: nat :: i < |prdt[1..]| ==> prdt[1..][i] == prdt[i + 1];
      GatherTiled(mem, prdt[1..], buffer + n, size - n);
      assert mem[buffer..buffer + n] + mem[buffer + n..buffer + size] == mem[buffer..buffer + size];
    }
  }

  lemma SpliceNothing(m: seq<Byte>, at: nat)
    requires at <= |m|
    ensures Splice(m, at, []) == m
  {
  }

  lemma SpliceTwice(m: seq<Byte>, at: nat, data: seq<Byte>, n: nat)
    requires at + |data| <= |m| && n <= |data|
    ensures Splice(Splice(m, at, data[..n]), at + n, data[n..]) == Splice(m, at, data)
  {
  }

  lemma {:induction false} ScatterTiled(mem: seq<Byte>, prdt: seq<Prd>, buffer: nat, size: nat, data: seq<Byte>)
    requires Tiles(prdt, buffer, size) && buffer + size <= |mem| && InMemory(mem, prdt) && |data| <= size
    ensures Scatter(mem, prdt, data) == Splice(mem, buffer, data)
    decreases |prdt|
  {
    if prdt == [] {
      assert data == [];
      SpliceNothing(mem, buffer);
    } else {
      var n := Min(prdt[0].len, |data|);
      var mem1 := Splice(mem, buffer, data[..n]);
      assert forall i: nat :: i < |prdt[1..]| ==> prdt[1..][i] == prdt[i + 1];
      ScatterTiled(mem1, prdt[1..], buffer + prdt[0].len, size - prdt[0].len, data[n..]);
      if n < prdt[0].len {
        assert data[n..] == [] && data[..n] == data;
        SpliceNothing(mem1, buffer + prdt[0].len);
      } else {
        SpliceTwice(mem, buffer, data, n);
      }
    }
  }

  lemma {:induction false} TiledInMemory(mem: seq<Byte>, prdt: seq<Prd>, buffer: nat, size: nat)
    requires Tiles(prdt, buffer, size) && buffer + size <= |mem|
    ensures InMemory(mem, prdt)
    decreases |prdt|
  {
    if prdt != [] {
      TiledInMemory(mem, prdt[1..], buffer + prdt[0].len, size - prdt[0].len);
      forall i: nat | i < |prdt| ensures prdt[i].addr + prdt[i].len <= |mem| {
        if i > 0 { assert prdt[i] == prdt[1..][i - 1]; }
      }
    }
  }

  // ---------- one command ----------

  /** Sectors of a command for `n` sectors that really move: the count keeps 16 bits only. */
  function Moved(n: nat): nat {
    Transferred(n % 0x10000)
  }

  /** Moving the first `k` sectors between disk sector `lba` and memory at `buffer`. */
  function Move(w: World, write: bool, lba: nat, k: nat, buffer: nat): World
    requires lba * 512 + k * 512 <= |w.disk| && buffer + k * 512 <= |w.mem|
  {
    if write then w.(disk := Splice(w.disk, lba * 512, w.mem[buffer..buffer + k * 512]))
    else w.(mem := Splice(w.mem, buffer, w.disk[lba * 512..lba * 512 + k * 512]))
  }

  ghost predicate InRange(w: World, lba: nat, n: nat, buffer: nat) {
    (lba + n) * 512 <= |w.disk| && buffer + n * 512 <= |w.mem|
  }

  lemma MovedBound(n: nat)
    requires n > 0
    ensures 1 <= Moved(n) <= n
    ensures Moved(n) == n <==> n <= COUNT_LIMIT
  {
  }

  /** What the device does with the command prepared for `n` sectors. */
  lemma PerformMoves(w: World, c: Command, n: nat, buffer: nat)
    requires 1 <= n <= CHUNK && InRange(w, c.lba, n, buffer)
    requires c.count == n % 0x10000 && Tiles(c.prdt, buffer, n * 512)
    ensures InMemory(w.mem, c.prdt)
    ensures Moved(n) <= n && Perform(w, c) == Move(w, c.write, c.lba, Moved(n), buffer)
  {
    MovedBound(n);
    TiledInMemory(w.mem, c.prdt, buffer, n * 512);
    if c.write {
      PerformWrite(w, c, n, Moved(n), buffer);
    } else {
      PerformRead(w, c, n, Moved(n), buffer);
    }
  }

  lemma PerformWrite(w: World, c: Command, n: nat, k: nat, buffer: nat)
    requires InRange(w, c.lba, n, buffer) && Tiles(c.prdt, buffer, n * 512) && InMemory(w.mem, c.prdt)
    requires c.write && k == Transferred(c.count) <= n
    ensures Perform(w, c) == Move(w, true, c.lba, k, buffer)
  {
    GatherTiled(w.mem, c.prdt, buffer, n * 512);
    assert w.mem[buffer..buffer + n * 512][..k * 512] == w.mem[buffer..buffer + k * 512];
  }

  lemma PerformRead(w: World, c: Command, n: nat, k: nat, buffer: nat)
    requires InRange(w, c.lba, n, buffer) && Tiles(c.prdt, buffer, n * 512) && InMemory(w.mem, c.prdt)
    requires !c.write && k == Transferred(c.count) <= n
    ensures Perform(w, c) == Move(w, false, c.lba, k, buffer)
  {
    ScatterTiled(w.mem, c.prdt, buffer, n * 512, w.disk[c.lba * 512..c.lba * 512 + k * 512]);
  }

  // ---------- whole requests ----------

  /** Sectors left after a command for `n`: the remainder keeps 32 bits only. */
  function Rest(n: nat): nat {
    if n > CHUNK then (n - CHUNK) % 0x1_0000_0000 else 0
  }

  function First(n: nat): nat {
    if n > CHUNK then CHUNK else n
  }

  lemma RestShrinks(n: nat)
    ensures Rest(n) < n || n == 0
    ensures First(n) + Rest(n) == n <==> n < 0x1_0000_0000 + 0x40_0000
  {
  }

  /** The sizes of the commands send_rw_cmds issues. */
  function Chunks(n: nat): seq<nat>
    decreases n
  {
    RestShrinks(n);
    if n == 0 then [] else [First(n)] + Chunks(Rest(n))
  }

  function Sum(ns: seq<nat>): nat {
    if ns == [] then 0 else ns[0] + Sum(ns[1..])
  }

  /** The commands cover the request if and only if it is shorter than 2^32 + 2^22 sectors. */
  lemma {:induction false} ChunksCover(n: nat)
    ensures Sum(Chunks(n)) == n <==> n < 0x1_0000_0000 + 0x40_0000
    ensures Sum(Chunks(n)) <= n
    decreases n
  {
    if n > 0 {
      RestShrinks(n);
      ChunksCover(Rest(n));
      assert Chunks(n)[1..] == Chunks(Rest(n));
    }
  }

  /** Command `i` starts where the ones before it end, except that all but the last are full:
      `lba` and `buffer` advance by a full chunk each time. */
  lemma {:induction false} ChunksAreFull(n: nat, i: nat)
    requires i < |Chunks(n)|
    ensures 1 <= Chunks(n)[i] <= 0x40_0000
    ensures i + 1 < |Chunks(n)| ==> Chunks(n)[i] == 0x40_0000
    decreases n
  {
    RestShrinks(n);
    if i > 0 {
      ChunksAreFull(Rest(n), i - 1);
      assert Chunks(n)[i] == Chunks(Rest(n))[i - 1];
    }
  }

  /** The effect of a whole request, command by command. */
  function MoveAll(w: World, write: bool, lba: nat, n: nat, buffer: nat): World
    requires InRange(w, lba, n, buffer)
    decreases n
  {
    RestShrinks(n);
    if n == 0 then w
    else
      MovedBound(First(n));
      var w1 := Move(w, write, lba, Moved(First(n)), buffer);
      if Rest(n) == 0 then w1 else MoveAll(w1, write, lba + CHUNK, Rest(n), buffer + CHUNK * 512)
  }

  /** Up to 65536 sectors a request moves completely. */
  lemma SmallRequestMoves(w: World, write: bool, lba: nat, n: nat, buffer: nat)
    requires 0 < n <= COUNT_LIMIT && InRange(w, lba, n, buffer)
    ensures MoveAll(w, write, lba, n, buffer) == Move(w, write, lba, n, buffer)
  {
    MovedBound(n);
  }

  /** A write leaves everything before its first sector alone. */
  lemma {:induction false} BeforeUntouched(w: World, lba: nat, n: nat, buffer: nat, k: nat)
    requires InRange(w, lba, n, buffer) && k < lba * 512
    ensures |MoveAll(w, true, lba, n, buffer).disk| == |w.disk| && MoveAll(w, true, lba, n, buffer).disk[k] == w.disk[k]
    decreases n
  {
    RestShrinks(n);
    if n > 0 && Rest(n) != 0 {
      MovedBound(First(n));
      BeforeUntouched(Move(w, true, lba, Moved(First(n)), buffer), lba + CHUNK, Rest(n), buffer + CHUNK * 512, k);
    }
  }

  /** Of a longer request the 65537th sector never moves. */
  lemma SectorLost(w: World, lba: nat, n: nat, buffer: nat, k: nat)
    requires InRange(w, lba, n, buffer) && n > COUNT_LIMIT && k == lba * 512 + COUNT_LIMIT * 512
    ensures |MoveAll(w, true, lba, n, buffer).disk| == |w.disk| && MoveAll(w, true, lba, n, buffer).disk[k] == w.disk[k]
  {
    RestShrinks(n);
    MovedBound(First(n));
    var moved := Moved(First(n));
    assert moved <= COUNT_LIMIT && moved <= n;
    BeyondMoved(w, lba, moved, buffer, k);
    LostAfterFirst(w, lba, n, buffer, k, Move(w, true, lba, moved, buffer));
  }

  lemma LostAfterFirst(w: World, lba: nat, n: nat, buffer: nat, k: nat, w1: World)
    requires InRange(w, lba, n, buffer) && n > COUNT_LIMIT && lba * 512 <= k < (lba + CHUNK) * 512
    requires Moved(First(n)) <= n && w1 == Move(w, true, lba, Moved(First(n)), buffer)
    ensures var d := MoveAll(w, true, lba, n, buffer).disk; |d| == |w1.disk| && (k < |d| ==> d[k] == w1.disk[k])
  {
    RestShrinks(n);
    if Rest(n) != 0 && k < |w1.disk| {
      BeforeUntouched(w1, lba + CHUNK, Rest(n), buffer + CHUNK * 512, k);
    } else {
      MoveAllLengths(w, true, lba, n, buffer);
    }
  }

  lemma BeyondMoved(w: World, lba: nat, k: nat, buffer: nat, at: nat)
    requires lba * 512 + k * 512 <= at < |w.disk| && buffer + k * 512 <= |w.mem|
    ensures Move(w, true, lba, k, buffer).disk[at] == w.disk[at]
  {
  }

  /** A write request puts all of its bytes on the disk, whatever they are, if and only if it has
      at most 65536 sectors. */
  lemma WritesWhole(lba: nat, n: nat, buffer: nat)
    requires n > 0
    ensures (forall w: World :: InRange(w, lba, n, buffer) ==>
               MoveAll(w, true, lba, n, buffer) == Move(w, true, lba, n, buffer))
            <==> n <= 0x1_0000
  {
    if n <= COUNT_LIMIT {
      forall w: World | InRange(w, lba, n, buffer)
        ensures MoveAll(w, true, lba, n, buffer) == Move(w, true, lba, n, buffer)
      {
        SmallRequestMoves(w, true, lba, n, buffer);
      }
    } else {
      var zero: Byte, one: Byte := 0, 1;
      var w := World(seq(buffer + n * 512, _ => one), seq((lba + n) * 512, _ => zero));
      var k := lba * 512 + COUNT_LIMIT * 512;
      SectorLost(w, lba, n, buffer, k);
      assert Move(w, true, lba, n, buffer).disk[k] == one;
    }
  }

  /** Data written from one buffer comes back when the sectors are read into any other, whatever
      memory holds by then, and the write changes no other sector. */
  lemma WriteThenRead(w: World, lba: nat, n: nat, from: nat, later: seq<Byte>, to: nat)
    requires 0 < n <= 0x1_0000 && InRange(w, lba, n, from) && to + n * 512 <= |later|
    ensures var w1 := MoveAll(w, true, lba, n, from);
      && |w1.disk| == |w.disk| && w1.mem == w.mem
      && (forall k: nat :: k < |w.disk| && !(lba * 512 <= k < (lba + n) * 512) ==> w1.disk[k] == w.disk[k])
      && var w2 := MoveAll(World(later, w1.disk), false, lba, n, to);
      w2.disk == w1.disk && |w2.mem| == |later| && w2.mem[to..to + n * 512] == w.mem[from..from + n * 512]
  {
    SmallRequestMoves(w, true, lba, n, from);
    var w1 := MoveAll(w, true, lba, n, from);
    SmallRequestMoves(World(later, w1.disk), false, lba, n, to);
    assert w1.disk[lba * 512..lba * 512 + n * 512] == w.mem[from..from + n * 512];
  }

  // ---------- the driver ----------

  /** The FIS and the table of one command. */
  method Prepare(table: array<PrdWords>, prdtl: nat, lba: nat, n: nat, buffer: nat, write: bool) returns (c: Command)
    requires table.Length == MAX_PRDTS && 1 <= n <= CHUNK && prdtl == (n - 1) * 512 / 0x200000 + 1
    requires lba < LBA_LIMIT && buffer + n * 512 <= 0x1_0000_0000_0000_0000
    modifies table
    ensures Prepared(c, write, lba, n, buffer)
  {
    PrdtFits(n);
    SetPrdts(table, prdtl, buffer, n * 512);
    var fis := FillFis(lba, n, write);
    c := Decoded(fis, table[..prdtl]);
    PrdsTile(c.prdt, buffer, n * 512, 0);
    assert c.prdt[0..] == c.prdt;
  }

  /** A port with its 32 command slots and their tables, and the device behind it. */
  class Port {
    const cmdSlots: nat
    const tables: seq<array<PrdWords>>
    var busy: seq<bool>            // ci | sact
    var world: World
    ghost var issued: seq<Command>

    constructor (slots: nat, memory: seq<array<PrdWords>>, w: World, occupied: seq<bool>)
      requires slots <= 31 && |memory| == 32 && |occupied| == 32 && |w.disk| <= LBA_LIMIT * 512
      requires |w.mem| <= 0x1_0000_0000_0000_0000
      requires forall i: nat :: i < 32 ==> memory[i].Length == MAX_PRDTS
      ensures Valid() && world == w && busy == occupied && issued == [] && cmdSlots == slots && tables == memory
    {
      cmdSlots, tables, busy, world, issued := slots, memory, occupied, w, [];
    }

    ghost predicate Valid()
      reads this
    {
      && cmdSlots <= 31 && |tables| == 32 && |busy| == 32 && |world.disk| <= LBA_LIMIT * 512
      && |world.mem| <= 0x1_0000_0000_0000_0000
      && forall i: nat :: i < 32 ==> tables[i].Length == MAX_PRDTS
    }

    ghost predicate HasFreeSlot()
      reads this
      requires Valid()
    {
      exists i: nat :: i < cmdSlots && !busy[i]
    }

    /** find_cmd_slot: the lowest free slot, if there is one. */
    method FindCmdSlot() returns (slot: Option<nat>)
      requires Valid()
      ensures slot.Some? ==> slot.value < cmdSlots && !busy[slot.value] && forall i: nat :: i < slot.value ==> busy[i]
      ensures slot.None? <==> !HasFreeSlot()
    {
      for i := 0 to cmdSlots
        invariant forall j: nat :: j < i ==> busy[j]
      {
        if !busy[i] { return Some(i); }
      }
      return None;
    }

    /** send_cmd: the device carries the command out and clears its slot. */
    method Issue(c: Command)
      requires Valid() && InMemory(world.mem, c.prdt)
      modifies this`world, this`issued
      ensures Valid() && world == Perform(old(world), c) && issued == old(issued) + [c]
    {
      world := Perform(world, c);
      issued := issued + [c];
    }

    /** send_rw_cmd: one command for as many sectors as fit; returns how many are left. */
    method SendRwCmd(lba: nat, sectorCount: nat, buffer: nat, write: bool) returns (rest: nat)
      requires Valid() && sectorCount > 0 && InRange(world, lba, sectorCount, buffer)
      modifies this`world, this`issued, tables
      ensures Valid()
      ensures !HasFreeSlot() ==> rest == sectorCount && world == old(world) && issued == old(issued)
      ensures HasFreeSlot() ==>
                && rest == Rest(sectorCount)
                && Moved(First(sectorCount)) <= sectorCount
                && world == Move(old(world), write, lba, Moved(First(sectorCount)), buffer)
                && |issued| == |old(issued)| + 1 && issued[..|old(issued)|] == old(issued)
                && Prepared(issued[|old(issued)|], write, lba, First(sectorCount), buffer)
    {
      var slot := FindCmdSlot();
      if slot.None? {
        return sectorCount;
      }
      var n := sectorCount;
      var prdtl := (sectorCount - 1) * 512 / 0x200000 + 1;
      rest := 0;
      if sectorCount > CHUNK {
        rest := (sectorCount - CHUNK) % 0x1_0000_0000;
        n := CHUNK;
        prdtl := MAX_PRDTS;
      }
      var c := Prepare(tables[slot.value], prdtl, lba, n, buffer, write);
      MovedBound(n);
      PerformMoves(world, c, n, buffer);
      Issue(c);
    }

    /** A command sent as part of a request that is to end in `final`. */
    method SendPart(lba: nat, n: nat, buffer: nat, write: bool, ghost final: World)
      returns (rest: nat, ghost c: Command)
      requires Valid() && HasFreeSlot() && n > 0 && InRange(world, lba, n, buffer)
      requires MoveAll(world, write, lba, n, buffer) == final
      modifies this`world, this`issued, tables
      ensures Valid() && HasFreeSlot() && rest == Rest(n) < n && Pending(world, write, lba, rest, buffer, final)
      ensures issued == old(issued) + [c] && Prepared(c, write, lba, First(n), buffer)
    {
      RestShrinks(n);
      MovedBound(First(n));
      rest := SendRwCmd(lba, n, buffer, write);
      c := issued[|old(issued)|];
      assert issued == old(issued) + [c];
    }

    /** send_rw_cmds with a free slot: the whole request, chunk after chunk. */
    method SendRwCmds(lba0: nat, sectorCount: nat, buffer0: nat, write: bool) returns (ghost cs: seq<Command>)
      requires Valid() && HasFreeSlot() && sectorCount > 0 && InRange(world, lba0, sectorCount, buffer0)
      modifies this`world, this`issued, tables
      ensures Valid() && HasFreeSlot() && world == MoveAll(old(world), write, lba0, sectorCount, buffer0)
      ensures issued == old(issued) + cs && Plan(cs, write, lba0, sectorCount, buffer0, 0)
    {
      var lba: nat, buffer: nat := lba0, buffer0;
      ghost var r := Request(write, lba0, sectorCount, buffer0, MoveAll(world, write, lba0, sectorCount, buffer0));
      ghost var sent := issued;
      var rest;
      rest, cs := SendNext(lba, sectorCount, buffer, write, r, [], sent);
      cs := SendOthers(lba, rest, buffer, write, r, cs, sent);
    }

    /** The loop of send_rw_cmds. */
    method SendOthers(lba0: nat, rest0: nat, buffer0: nat, write: bool, ghost r: Request, ghost cs0: seq<Command>,
                      ghost sent: seq<Command>)
      returns (ghost cs: seq<Command>)
      requires Valid() && HasFreeSlot() && r.write == write && issued == sent + cs0
      requires Underway(r, cs0, world, lba0, rest0, buffer0)
      modifies this`world, this`issued, tables
      ensures Valid() && HasFreeSlot() && world == r.final
      ensures issued == sent + cs && Plan(cs, write, r.lba, r.n, r.buffer, 0)
    {
      var lba: nat, rest: nat, buffer: nat := lba0, rest0, buffer0;
      cs := cs0;
      while rest != 0
        invariant Valid() && HasFreeSlot() && issued == sent + cs && Underway(r, cs, world, lba, rest, buffer)
        decreases rest
      {
        lba := lba + CHUNK;
        buffer := buffer + CHUNK * 512;
        rest, cs := SendNext(lba, rest, buffer, write, r, cs, sent);
      }
    }

    /** One command of a request after those in `cs`. */
    method SendNext(lba: nat, n: nat, buffer: nat, write: bool, ghost r: Request, ghost cs: seq<Command>,
                    ghost sent: seq<Command>)
      returns (rest: nat, ghost cs': seq<Command>)
      requires Valid() && HasFreeSlot() && n > 0 && InRange(world, lba, n, buffer) && issued == sent + cs
      requires r.write == write && MoveAll(world, write, lba, n, buffer) == r.final
      requires lba == r.lba + |cs| * CHUNK && buffer == r.buffer + |cs| * (CHUNK * 512)
      requires Plan(cs, r.write, r.lba, r.n, r.buffer, n)
      modifies this`world, this`issued, tables
      ensures Valid() && HasFreeSlot() && rest < n && issued == sent + cs' && Underway(r, cs', world, lba, rest, buffer)
    {
      ghost var c;
      rest, c := SendPart(lba, n, buffer, write, r.final);
      NextSent(r, cs, c, world, lba, n, buffer);
      cs' := cs + [c];
    }
  }

  /** A request and the state it is to end in. */
  datatype Request = Request(write: bool, lba: nat, n: nat, buffer: nat, final: World)

  /** The commands `cs` of the request are out; the last one was for `lba` and `buffer`. */
  ghost predicate Underway(r: Request, cs: seq<Command>, w: World, lba: nat, rest: nat, buffer: nat) {
    && lba + CHUNK == r.lba + |cs| * CHUNK && buffer + CHUNK * 512 == r.buffer + |cs| * (CHUNK * 512)
    && Pending(w, r.write, lba, rest, buffer, r.final)
    && Plan(cs, r.write, r.lba, r.n, r.buffer, rest)
  }

  lemma NextSent(r: Request, cs: seq<Command>, c: Command, w: World, lba: nat, n: nat, buffer: nat)
    requires lba == r.lba + |cs| * CHUNK && buffer == r.buffer + |cs| * (CHUNK * 512) && n > 0
    requires Plan(cs, r.write, r.lba, r.n, r.buffer, n) && Prepared(c, r.write, lba, First(n), buffer)
    requires Pending(w, r.write, lba, Rest(n), buffer, r.final)
    ensures Underway(r, cs + [c], w, lba, Rest(n), buffer)
  {
    PlanExtend(cs, c, r.write, r.lba, r.n, r.buffer, |cs|, n);
    NextChunk(r.lba, |cs|, |cs + [c]|, CHUNK);
    NextChunk(r.buffer, |cs|, |cs + [c]|, CHUNK * 512);
  }

  lemma NextChunk(start: nat, k: nat, n: nat, size: nat)
    requires n == k + 1
    ensures start + k * size + size == start + n * size
  {
  }

  /** The command covers `n` sectors at `lba` with a table that tiles its buffer. */
  ghost predicate Prepared(c: Command, write: bool, lba: nat, n: nat, buffer: nat) {
    && c.write == write && c.lba == lba && c.count == n % 0x10000
    && Tiles(c.prdt, buffer, n * 512) && 1 <= |c.prdt| <= 1024
    && forall i: nat :: i < |c.prdt| ==> 1 <= c.prdt[i].len <= 0x200000
  }

  lemma PrdtFits(n: nat)
    requires 1 <= n <= CHUNK
    ensures var k := (n - 1) * 512 / 0x200000 + 1; k <= MAX_PRDTS && (k - 1) * 0x200000 < n * 512 <= k * 0x200000
    ensures n == CHUNK ==> (n - 1) * 512 / 0x200000 + 1 == MAX_PRDTS
  {
  }

  /** `rest` sectors are still to move, one chunk further on, to end in `final`. */
  ghost predicate Pending(w: World, write: bool, lba: nat, rest: nat, buffer: nat, final: World) {
    if rest == 0 then w == final
    else
      && InRange(w, lba + CHUNK, rest, buffer + CHUNK * 512)
      && MoveAll(w, write, lba + CHUNK, rest, buffer + CHUNK * 512) == final
  }

  /** The commands `cs` are the first ones of a request of `n` sectors, back to back, and leave
      `rest` sectors. */
  ghost predicate Plan(cs: seq<Command>, write: bool, lba: nat, n: nat, buffer: nat, rest: nat)
    decreases |cs|
  {
    if cs == [] then n == rest
    else
      && n > 0 && Prepared(cs[0], write, lba, First(n), buffer)
      && Plan(cs[1..], write, lba + CHUNK, Rest(n), buffer + CHUNK * 512, rest)
  }

  lemma {:induction false} PlanExtend(cs: seq<Command>, c: Command, write: bool, lba: nat, n: nat, buffer: nat,
                                      i: nat, rest: nat)
    requires Plan(cs, write, lba, n, buffer, rest) && i == |cs| && rest > 0
    requires Prepared(c, write, lba + i * CHUNK, First(rest), buffer + i * (CHUNK * 512))
    ensures Plan(cs + [c], write, lba, n, buffer, Rest(rest))
    decreases |cs|
  {
    var l := cs + [c];
    if cs == [] {
      assert l[1..] == [];
    } else {
      PlanExtend(cs[1..], c, write, lba + CHUNK, Rest(n), buffer + CHUNK * 512, i - 1, rest);
      assert l[1..] == cs[1..] + [c];
    }
  }

  /** A completed plan has one command per chunk, each where the one before it ends; so it covers
      the request whenever the chunks do. */
  lemma {:induction false} PlanCovers(cs: seq<Command>, write: bool, lba: nat, n: nat, buffer: nat)
    requires Plan(cs, write, lba, n, buffer, 0) && n > 0
    ensures |cs| == |Chunks(n)|
    ensures forall i: nat :: i < |cs| ==>
              Prepared(cs[i], write, lba + i * 0x40_0000, Chunks(n)[i], buffer + i * 0x8000_0000)
    decreases |cs|
  {
    RestShrinks(n);
    if Rest(n) == 0 {
      assert cs[1..] == [];
    } else {
      var rest, chunks := cs[1..], Chunks(Rest(n));
      PlanCovers(rest, write, lba + CHUNK, Rest(n), buffer + CHUNK * 512);
      forall i: nat | 0 < i < |cs|
        ensures Prepared(cs[i], write, lba + i * CHUNK, Chunks(n)[i], buffer + i * (CHUNK * 512))
      {
        var j := i - 1;
        assert Prepared(rest[j], write, lba + CHUNK + j * CHUNK, chunks[j], buffer + CHUNK * 512 + j * (CHUNK * 512));
        assert cs[i] == rest[j] && Chunks(n)[i] == chunks[j];
      }
    }
  }

  // ---------- ahci_read and ahci_write ----------

  /** Requests that reach the end of the device are cut there, in 64-bit arithmetic. */
  function Clamp(start: nat, size: nat, total: nat): nat {
    if (start + size) % 0x1_0000_0000_0000_0000 >= total then (total - start) % 0x1_0000_0000_0000_0000 else size
  }

  /** After the cut a request lies on the device if and only if it starts there and its end does
      not wrap around to before the device's: a start beyond the device makes the cut underflow. */
  lemma ClampExact(start: nat, size: nat, total: nat)
    requires start < 0x1_0000_0000_0000_0000 && size < 0x1_0000_0000_0000_0000 && total < 0x1_0000_0000_0000_0000
    ensures start + Clamp(start, size, total) <= total
            <==> start <= total && (start + size < 0x1_0000_0000_0000_0000
                                    || (start + size) % 0x1_0000_0000_0000_0000 >= total)
  {
  }

  /** A request that starts on the device is cut to what is left of it. */
  lemma ClampInside(start: nat, size: nat, total: nat)
    requires start <= total < 0x1_0000_0000_0000_0000 && start + size < 0x1_0000_0000_0000_0000
    ensures Clamp(start, size, total) == Min(size, total - start)
  {
  }

  /** Every aligned request that starts on the device can be carried out as it is cut, given a bounce
      buffer in memory. */
  lemma RequestFits(w: World, start: nat, size: nat, m: nat, bounce: nat)
    requires start <= |w.disk| < 0x1_0000_0000_0000_0000 && start + size < 0x1_0000_0000_0000_0000
    requires m == Clamp(start, size, |w.disk|) && start % 512 == 0 && m % 512 == 0 && bounce + m <= |w.mem|
    ensures InRange(w, start / 512, m / 512, bounce)
  {
    ClampInside(start, size, |w.disk|);
    assert start / 512 * 512 == start && m / 512 * 512 == m;
  }

  /** The effect of a read request on memory and disk ... */
  function ReadEffect(w: World, start: nat, m: nat, bounce: nat): World
    requires InRange(w, start / 512, m / 512, bounce)
  {
    MoveAll(w, false, start / 512, m / 512, bounce)
  }

  /** ... and that of a write request for the bytes `data`. */
  function WriteEffect(w: World, start: nat, bounce: nat, data: seq<Byte>): World
    requires bounce + |data| <= |w.mem| && InRange(w, start / 512, |data| / 512, bounce)
  {
    MoveAll(w.(mem := Splice(w.mem, bounce, data)), true, start / 512, |data| / 512, bounce)
  }

  /** Through the driver: what a caller writes, in up to 65536 sectors, is what any caller reads
      back from the same range, through whatever bounce buffers and whatever memory holds by then;
      and every byte of the disk outside the range is as before. */
  lemma DriverRoundTrip(w: World, start: nat, data: seq<Byte>, bounce: nat, later: seq<Byte>, bounce': nat)
    requires start % 512 == 0 && |data| % 512 == 0 && 0 < |data| <= 0x1_0000 * 512
    requires InRange(w, start / 512, |data| / 512, bounce) && bounce' + |data| <= |later|
    ensures var w1 := WriteEffect(w, start, bounce, data);
      && |w1.disk| == |w.disk|
      && (forall k: nat :: k < |w.disk| && !(start <= k < start + |data|) ==> w1.disk[k] == w.disk[k])
      && var w2 := ReadEffect(World(later, w1.disk), start, |data|, bounce');
      w2.disk == w1.disk && |w2.mem| == |later| && w2.mem[bounce'..bounce' + |data|] == data
  {
    var w0 := w.(mem := Splice(w.mem, bounce, data));
    var lba, n := start / 512, |data| / 512;
    assert n * 512 == |data| && lba * 512 == start && (lba + n) * 512 == start + |data|;
    assert w0.mem[bounce..bounce + |data|] == data;
    WriteThenRead(w0, lba, n, bounce, later, bounce');
  }

  /** A write of up to 65536 sectors puts the caller's bytes into the range. */
  lemma WriteLands(w: World, start: nat, data: seq<Byte>, bounce: nat)
    requires start % 512 == 0 && |data| % 512 == 0 && 0 < |data| <= 0x1_0000 * 512
    requires InRange(w, start / 512, |data| / 512, bounce)
    ensures var w' := WriteEffect(w, start, bounce, data);
      |w'.disk| == |w.disk| && w'.disk[start..start + |data|] == data
  {
    var w0 := w.(mem := Splice(w.mem, bounce, data));
    assert |data| / 512 * 512 == |data| && start / 512 * 512 == start;
    assert w0.mem[bounce..bounce + |data|] == data;
    SmallRequestMoves(w0, true, start / 512, |data| / 512, bounce);
  }

  /** A read of up to 65536 sectors brings the bytes of the range into the bounce buffer and changes
      nothing else. */
  lemma ReadBrings(w: World, start: nat, m: nat, bounce: nat)
    requires start % 512 == 0 && m % 512 == 0 && 0 < m <= 0x1_0000 * 512 && InRange(w, start / 512, m / 512, bounce)
    ensures var w' := ReadEffect(w, start, m, bounce);
      && w'.disk == w.disk && |w'.mem| == |w.mem| && w'.mem[bounce..bounce + m] == w.disk[start..start + m]
      && forall k: nat :: k < |w.mem| && !(bounce <= k < bounce + m) ==> w'.mem[k] == w.mem[k]
  {
    assert start / 512 * 512 == start && m / 512 * 512 == m;
    SmallRequestMoves(w, false, start / 512, m / 512, bounce);
  }

  /** ahci_read; `bounce` is the page-aligned buffer the allocator provides. */
  method AhciRead(p: Port, start: nat, size: nat, buffer: array<Byte>, bounce: nat) returns (n: nat)
    requires p.Valid() && forall i: nat :: i < |p.tables| ==> p.tables[i] as object != buffer
    requires var m := Clamp(start, size, |p.world.disk|);
      start % 512 == 0 && m % 512 == 0 ==>
        p.HasFreeSlot() && m > 0 && m <= buffer.Length && InRange(p.world, start / 512, m / 512, bounce)
    modifies p`world, p`issued, p.tables, buffer
    ensures p.Valid()
    ensures var m := Clamp(start, size, |old(p.world).disk|);
      if start % 512 != 0 || m % 512 != 0 then n == 0 && p.world == old(p.world) && buffer[..] == old(buffer[..])
      else
        && n == m && p.world == ReadEffect(old(p.world), start, m, bounce)
        && bounce + m <= |p.world.mem| && buffer[..m] == p.world.mem[bounce..bounce + m]
        && buffer[m..] == old(buffer[m..])
  {
    n := size;
    if (start + n) % 0x1_0000_0000_0000_0000 >= |p.world.disk| {
      n := (|p.world.disk| - start) % 0x1_0000_0000_0000_0000;
    }
    if start % 512 != 0 || n % 512 != 0 {
      return 0;
    }
    MoveAllLengths(p.world, false, start / 512, n / 512, bounce);
    var _ := p.SendRwCmds(start / 512, n / 512, bounce, false);
    assert buffer[..] == old(buffer[..]);
    CopyOut(p.world.mem, bounce, buffer, n);
  }

  /** The copy from the bounce buffer to the caller's. */
  method CopyOut(mem: seq<Byte>, bounce: nat, buffer: array<Byte>, n: nat)
    requires bounce + n <= |mem| && n <= buffer.Length
    modifies buffer
    ensures buffer[..n] == mem[bounce..bounce + n] && buffer[n..] == old(buffer[n..])
  {
    for i := 0 to n
      invariant buffer[..i] == mem[bounce..bounce + i] && buffer[n..] == old(buffer[n..])
    {
      buffer[i] := mem[bounce + i];
    }
  }

  /** The copy from the caller's buffer to the bounce buffer. */
  method CopyIn(p: Port, bounce: nat, buffer: array<Byte>, n: nat)
    requires bounce + n <= |p.world.mem| && n <= buffer.Length
    modifies p`world
    ensures p.world == old(p.world).(mem := Splice(old(p.world).mem, bounce, buffer[..n]))
  {
    SpliceNothing(p.world.mem, bounce);
    for i := 0 to n
      invariant p.world == old(p.world).(mem := Splice(old(p.world).mem, bounce, buffer[..i]))
    {
      p.world := p.world.(mem := p.world.mem[bounce + i := buffer[i]]);
    }
  }

  /** ahci_write */
  method AhciWrite(p: Port, start: nat, size: nat, buffer: array<Byte>, bounce: nat) returns (n: nat)
    requires p.Valid() && forall i: nat :: i < |p.tables| ==> p.tables[i] as object != buffer
    requires var m := Clamp(start, size, |p.world.disk|);
      start % 512 == 0 && m % 512 == 0 ==>
        p.HasFreeSlot() && m > 0 && m <= buffer.Length && InRange(p.world, start / 512, m / 512, bounce)
    modifies p`world, p`issued, p.tables
    ensures p.Valid()
    ensures var m := Clamp(start, size, |old(p.world).disk|);
      if start % 512 != 0 || m % 512 != 0 then n == 0 && p.world == old(p.world)
      else
        && n == m && p.world == WriteEffect(old(p.world), start, bounce, old(buffer[..m]))
  {
    n := size;
    if (start + n) % 0x1_0000_0000_0000_0000 >= |p.world.disk| {
      n := (|p.world.disk| - start) % 0x1_0000_0000_0000_0000;
    }
    if start % 512 != 0 || n % 512 != 0 {
      return 0;
    }
    CopyIn(p, bounce, buffer, n);
    ghost var w := p.world;
    var _ := p.SendRwCmds(start / 512, n / 512, bounce, true);
    assert buffer[..n] == old(buffer[..n]);
    assert w == old(p.world).(mem := Splice(old(p.world).mem, bounce, old(buffer[..n])));
  }

  lemma {:induction false} MoveAllLengths(w: World, write: bool, lba: nat, n: nat, buffer: nat)
    requires InRange(w, lba, n, buffer)
    ensures var w' := MoveAll(w, write, lba, n, buffer); |w'.mem| == |w.mem| && |w'.disk| == |w.disk|
    decreases n
  {
    RestShrinks(n);
    if n > 0 && Rest(n) != 0 {
      MovedBound(First(n));
      MoveAllLengths(Move(w, write, lba, Moved(First(n)), buffer), write, lba + CHUNK, Rest(n), buffer + CHUNK * 512);
    }
  }
}
