/** The SPI NOR flash chip on the other end of the wire: a device automaton.
    The chip sees chip-select frames; each frame is the sequence of bytes clocked
    while the chip is selected, and takes effect when the chip is deselected. */
module NorFlash {
  import opened Bits
  import opened Outcomes

  // The programmer's command bytes (the constants of ast/spi.go and the literals it sends). The chip
  // below knows its commands by number.
  const FREAD: byte := 0x0b
  const FREAD4B: byte := 0x0c
  const PPROGRAM: byte := 0x02
  const PPROGRAM4B: byte := 0x12
  const ERASE: byte := 0xd8
  const ERASE4B: byte := 0xdc
  const BRRD: byte := 0x16
  const STATUS: byte := 0x05
  const RDCR: byte := 0x15
  const RFSR: byte := 0x70
  const RDID: byte := 0x9f
  const WREN: byte := 0x06
  const WRDI: byte := 0x04

  /** One byte time on the wire: driven by the master, or by the chip. */
  datatype Wire = Out(b: byte) | In(b: byte)

  /** A finished frame, with what the chip looked like when it began. */
  datatype Frame = Frame(wire: seq<Wire>, busy: bool, wel: bool)

  /**
   The chip. `busy` counts the status polls that will still report a running
   operation; `delay(k)` is that count for the k-th operation, so that a theorem for
   every `delay` covers every timing. `fault(k)`, when present, is the array left
   behind by a k-th operation that went wrong. `log` records every frame.
   */
  datatype Nor = Nor(
    id: nat,
    eraseSize: nat,
    cells: seq<byte>,
    busy: nat,
    wel: bool,
    addr4: bool,
    srHigh: nat,
    cfg: byte -> byte,
    ops: nat,
    delay: nat -> nat,
    fault: nat -> Option<seq<byte>>,
    log: seq<Frame>)

  /** `off & (eraseSize - 1) == 0`, for the two block sizes there are. */
  predicate Aligned(off: nat, eraseSize: nat) {
    if eraseSize == 0x1_0000 then off % 0x1_0000 == 0 else off % 0x4_0000 == 0
  }

  /** The number of the block that holds `addr`. */
  function BlockOf(addr: nat, eraseSize: nat): nat {
    if eraseSize == 0x1_0000 then addr / 0x1_0000 else addr / 0x4_0000
  }

  /** A chip of one of the known geometries. */
  ghost predicate WellFormed(n: Nor) {
    && n.eraseSize in {0x1_0000, 0x4_0000}
    && 0 < |n.cells| <= 0x400_0000
    && Aligned(|n.cells|, n.eraseSize)
    && n.srHigh < 64 && n.id < 0x100_0000
  }

  /** No operation ever goes wrong. */
  ghost predicate Correct(n: Nor) {
    forall k: nat :: n.fault(k) == None
  }

  /** `n` and `m` are the same part in the same address mode: only the array, the operation
      in progress and the log may differ. */
  ghost predicate SamePart(n: Nor, m: Nor) {
    m == n.(cells := m.cells, busy := m.busy, wel := m.wel, ops := m.ops, log := m.log)
    && |m.cells| == |n.cells|
  }

  predicate Is4B(cmd: byte) { cmd in {0x0c, 0x12, 0xdc} }
  predicate IsErase(cmd: byte) { cmd in {0xd8, 0xdc} }
  predicate IsProgram(cmd: byte) { cmd in {0x02, 0x12} }
  predicate IsFastRead(cmd: byte) { cmd in {0x0b, 0x0c} }

  /** How many address bytes the chip takes after `cmd`. */
  function AddrLen(n: Nor, cmd: byte): nat {
    if Is4B(cmd) || n.addr4 then 4 else 3
  }

  /** The address bytes of a frame, most significant first. */
  function WireAddr(wire: seq<Wire>, len: nat): nat
    requires len in {3, 4} && |wire| > len
  {
    var b1: nat, b2: nat, b3: nat := wire[1].b, wire[2].b, wire[3].b;
    var top := 0x1_0000 * b1 + 0x100 * b2 + b3;
    if len == 3 then top else 0x100 * top + wire[4].b
  }

  /** An address beyond the array wraps around; `a % size`, written so that the usual case is
      plain. */
  function Wrap(a: nat, size: nat): (r: nat)
    requires size > 0
    ensures r < size
  {
    if a < size then a else a % size
  }

  function StatusByte(n: Nor): byte
    requires n.srHigh < 64
  {
    4 * n.srHigh + (if n.wel then 2 else 0) + (if n.busy > 0 then 1 else 0)
  }

  /** The bit that reports 4-byte addressing in register `cmd` of part `id`. */
  function Mode4BMask(id: nat, cmd: byte): byte {
    if id == 0x20ba20 then (if cmd == 0x70 then 0x01 else 0)
    else if id == 0x010220 then (if cmd == 0x16 then 0x80 else 0)
    else if id == 0xef4019 then (if cmd == 0x15 then 0x01 else 0)
    else if cmd == 0x15 then 0x20
    else 0
  }

  /** A configuration register: the mode bit is the mode, the other bits are the part's own. */
  function ConfigByte(n: Nor, cmd: byte): byte {
    var mask := Mode4BMask(n.id, cmd);
    MergeMask(n.cfg(cmd), mask, 8);
    assert Pow2(8) == 256;
    AndNot(n.cfg(cmd), mask) + (if n.addr4 then mask else 0)
  }

  /** The byte the chip drives after the bytes `wire` of the current frame. */
  function Reply(n: Nor, wire: seq<Wire>): byte
    requires n.srHigh < 64 && |n.cells| > 0
  {
    if |wire| == 0 then 0xff
    else
      var cmd, p := wire[0].b, |wire|;
      if cmd == 0x05 then StatusByte(n)
      else if n.busy > 0 then 0xff
      else if cmd == 0x9f then
        if p == 1 then n.id / 0x1_0000 % 0x100 else if p == 2 then n.id / 0x100 % 0x100
        else if p == 3 then n.id % 0x100 else 0
      else if IsFastRead(cmd) then
        var h := 2 + AddrLen(n, cmd);  // command, address, one dummy byte
        if p < h then 0xff else n.cells[Wrap(WireAddr(wire, h - 2) + (p - h), |n.cells|)]
      else if cmd == 0x15 || cmd == 0x16 || cmd == 0x70 then ConfigByte(n, cmd)
      else 0xff
  }

  /** The bytes the master sends. */
  function Outs(out: seq<byte>): (w: seq<Wire>)
    ensures |w| == |out|
  {
    seq(|out|, i requires 0 <= i < |out| => Out(out[i]))
  }

  /** `count` more bytes are read from the chip within the frame. */
  function Clock(n: Nor, wire: seq<Wire>, count: nat): (w: seq<Wire>)
    requires n.srHigh < 64 && |n.cells| > 0
    ensures |w| == |wire| + count
  {
    if count == 0 then wire
    else
      var w := Clock(n, wire, count - 1);
      w + [In(Reply(n, w))]
  }

  /** Reading leaves what was sent in place, and every byte read is the chip's reply to
      exactly the bytes before it. */
  lemma {:induction false} ClockReplies(n: Nor, wire: seq<Wire>, count: nat)
    requires n.srHigh < 64 && |n.cells| > 0
    ensures Clock(n, wire, count)[..|wire|] == wire
    ensures forall i :: |wire| <= i < |wire| + count ==>
      Clock(n, wire, count)[i] == In(Reply(n, Clock(n, wire, count)[..i]))
  {
    if count != 0 {
      ClockReplies(n, wire, count - 1);
      var w, w0 := Clock(n, wire, count), Clock(n, wire, count - 1);
      assert w[..|w0|] == w0;
      forall i | |wire| <= i < |w|
        ensures w[i] == In(Reply(n, w[..i]))
      {
        assert i < |w0| ==> w[..i] == w0[..i];
      }
    }
  }

  lemma {:induction false} ClockAdds(n: Nor, wire: seq<Wire>, a: nat, b: nat)
    requires n.srHigh < 64 && |n.cells| > 0
    ensures Clock(n, Clock(n, wire, a), b) == Clock(n, wire, a + b)
    decreases b
  {
    if b != 0 {
      ClockAdds(n, wire, a, b - 1);
      var w := Clock(n, wire, a);
      assert Clock(n, w, b) == Clock(n, w, b - 1) + [In(Reply(n, Clock(n, w, b - 1)))];
    }
  }

  /** The frame of sending `out` and then reading `count` bytes. */
  function FrameOf(n: Nor, out: seq<byte>, count: nat): (w: seq<Wire>)
    requires n.srHigh < 64 && |n.cells| > 0
  {
    Clock(n, Outs(out), count)
  }

  /** The bytes of a piece of a frame. */
  function Bytes(wire: seq<Wire>): (s: seq<byte>)
    ensures |s| == |wire|
  {
    seq(|wire|, i requires 0 <= i < |wire| => wire[i].b)
  }

  /** What the master read in the frame `FrameOf(n, out, count)`. */
  function Replies(n: Nor, out: seq<byte>, count: nat): (s: seq<byte>)
    requires n.srHigh < 64 && |n.cells| > 0
    ensures |s| == count
  {
    Bytes(FrameOf(n, out, count)[|out|..])
  }

  /** The array after erasing the block that holds `addr`. */
  function ErasedCells(cells: seq<byte>, addr: nat, eraseSize: nat): (s: seq<byte>)
    requires eraseSize > 0
    ensures |s| == |cells|
  {
    seq(|cells|, p requires 0 <= p < |cells| =>
      if BlockOf(p, eraseSize) == BlockOf(addr, eraseSize) then 0xff else cells[p])
  }

  /** The array after programming `data` from `addr` on: the address wraps inside the
      256-byte page, the last byte sent for a cell is the one used, and a cell's bits can
      only go from 1 to 0. */
  function ProgrammedCells(cells: seq<byte>, addr: nat, data: seq<byte>): (s: seq<byte>)
    ensures |s| == |cells|
  {
    seq(|cells|, p requires 0 <= p < |cells| =>
      var lane := (p - addr) % 256;
      if p / 256 == addr / 256 && lane < |data|
      then And(cells[p], data[lane + (|data| - 1 - lane) / 256 * 256])
      else cells[p])
  }

  /** An erase or program begins: the array it will leave, and how long it stays busy. */
  function StartOp(n: Nor, ideal: seq<byte>): Nor
    requires |ideal| == |n.cells|
  {
    var f := n.fault(n.ops);
    var d := n.delay(n.ops);
    n.(cells := if f.Some? && |f.value| == |ideal| then f.value else ideal,
       ops := n.ops + 1, busy := d, wel := d > 0)
  }

  /** What a command does when the chip is deselected, the log apart. */
  function Execute(n: Nor, wire: seq<Wire>): (m: Nor)
    requires WellFormed(n)
    ensures SamePart(n, m) || (|wire| > 0 && wire[0].b in {0xb7, 0xe9, 0x17})
    ensures m.log == n.log && WellFormed(m)
  {
    if |wire| == 0 then n
    else
      var cmd := wire[0].b;
      var al := AddrLen(n, cmd);
      if cmd == 0x05 then
        if n.busy > 0 then n.(busy := n.busy - 1, wel := n.busy > 1) else n
      else if n.busy > 0 then n
      else if cmd == 0x06 && |wire| == 1 then n.(wel := true)
      else if cmd == 0x04 && |wire| == 1 then n.(wel := false)
      else if cmd == 0xb7 && |wire| == 1 then n.(addr4 := true)
      else if cmd == 0xe9 && |wire| == 1 then n.(addr4 := false)
      else if cmd == 0x17 && |wire| == 2 then n.(addr4 := wire[1].b >= 0x80)
      else if IsErase(cmd) && n.wel && |wire| == 1 + al then
        StartOp(n, ErasedCells(n.cells, Wrap(WireAddr(wire, al), |n.cells|), n.eraseSize))
      else if IsProgram(cmd) && n.wel && |wire| > 1 + al then
        StartOp(n, ProgrammedCells(n.cells, Wrap(WireAddr(wire, al), |n.cells|), Bytes(wire[1 + al..])))
      else n
  }

  /** The chip is deselected: the frame takes effect and is logged. */
  function Commit(n: Nor, wire: seq<Wire>): (m: Nor)
    requires WellFormed(n)
    ensures WellFormed(m)
  {
    Execute(n, wire).(log := n.log + [Frame(wire, n.busy > 0, n.wel)])
  }

  /** The protocol rule for one frame: while busy only the status register is read, and
      erase and program are only sent with the write-enable latch set. */
  ghost predicate FrameSafe(f: Frame) {
    && |f.wire| > 0
    && (f.busy ==> f.wire[0].b == 0x05)
    && (IsErase(f.wire[0].b) || IsProgram(f.wire[0].b) ==> f.wel)
  }

  /** `new` is `old` with only safe frames added. */
  ghost predicate SafeExtension(before: seq<Frame>, after: seq<Frame>) {
    && before <= after
    && forall i :: |before| <= i < |after| ==> FrameSafe(after[i])
  }

  /** `m` is `n` after some status polls. */
  ghost predicate Polled(n: Nor, m: Nor) {
    && m == n.(busy := m.busy, wel := m.wel, log := m.log)
    && m.busy <= n.busy
    && (m.busy == n.busy ==> m.wel == n.wel)
    && (m.busy < n.busy ==> m.wel == (m.busy > 0))
    && QuietExtension(n.log, m.log)
  }

  /** Only safe frames were added, and none that programs. */
  ghost predicate QuietExtension(before: seq<Frame>, after: seq<Frame>) {
    SafeExtension(before, after) && ProgramsIn(after) == ProgramsIn(before)
  }

  lemma PollsCompose(n: Nor, m: Nor, k: Nor)
    requires Polled(n, m) && Polled(m, k)
    ensures Polled(n, k)
  {
  }

  /** Ready for the next command: no operation running and the latch clear. */
  predicate AtRest(n: Nor) { n.busy == 0 && !n.wel }

  /** The (address, data) pairs of the program frames with 4-byte addresses in a log. */
  ghost function ProgramsIn(log: seq<Frame>): seq<(nat, seq<byte>)> {
    if log == [] then []
    else
      var f := log[|log| - 1].wire;
      ProgramsIn(log[..|log| - 1]) +
      if |f| > 5 && f[0].b == PPROGRAM4B then [(WireAddr(f, 4), Bytes(f[5..]))] else []
  }

  /** Frames of any other command add no programs. */
  lemma {:induction false} NoPrograms(before: seq<Frame>, after: seq<Frame>)
    requires before <= after
    requires forall i :: |before| <= i < |after| ==>
      |after[i].wire| > 0 && after[i].wire[0].b != PPROGRAM4B
    ensures ProgramsIn(after) == ProgramsIn(before)
    decreases |after|
  {
    if |after| == |before| {
      assert after == before;
    } else {
      NoPrograms(before, after[..|after| - 1]);
    }
  }

  /** How a write splits at the chip's 256-byte pages. */
  function PageChunks(off: nat, data: seq<byte>): seq<(nat, seq<byte>)>
    decreases |data|
  {
    if data == [] then []
    else
      var chunk := if 256 - off % 256 > |data| then |data| else 256 - off % 256;
      [(U32(off), data[..chunk])] + PageChunks(off + chunk, data[chunk..])
  }

  ghost function Flatten(chunks: seq<(nat, seq<byte>)>): seq<byte> {
    if chunks == [] then [] else chunks[0].1 + Flatten(chunks[1..])
  }

  /** Truncation to 32 bits keeps the position inside a page. */
  lemma PagePosition(off: nat)
    ensures U32(off) % 256 == off % 256
  {
    assert off == TWO32 * (off / TWO32) + U32(off);
  }

  /** The chunks cover the data exactly once and in order. */
  lemma {:induction false} ChunksCover(off: nat, data: seq<byte>)
    ensures Flatten(PageChunks(off, data)) == data
    decreases |data|
  {
    if data != [] {
      var c := PageChunks(off, data);
      ChunksCover(off + |c[0].1|, data[|c[0].1|..]);
      assert c[1..] == PageChunks(off + |c[0].1|, data[|c[0].1|..]);
    }
  }

  /** Each chunk starts where the bytes before it end, and none crosses a page. */
  lemma {:induction false} ChunkPlaced(off: nat, data: seq<byte>, k: nat)
    requires k < |PageChunks(off, data)|
    ensures var c := PageChunks(off, data);
      && 0 < |c[k].1| && c[k].0 % 256 + |c[k].1| <= 256
      && c[k].0 == U32(off + |Flatten(c[..k])|)
    decreases k
  {
    var c := PageChunks(off, data);
    PagePosition(off);
    if k != 0 {
      var n := |c[0].1|;
      var rest := PageChunks(off + n, data[n..]);
      assert c[1..] == rest;
      ChunkPlaced(off + n, data[n..], k - 1);
      assert c[..k][1..] == rest[..k - 1];
    }
  }

  /** Every byte in the range is ANDed with the data, and no other byte differs. */
  ghost predicate AndedInto(before: seq<byte>, after: seq<byte>, off: nat, data: seq<byte>) {
    && |after| == |before|
    && forall p :: 0 <= p < |before| ==>
         after[p] == if off <= p < off + |data| then And(before[p], data[p - off]) else before[p]
  }
}
