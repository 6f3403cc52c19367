/** The BMC's own 32-bit bus, as seen by whoever accesses it at a flat address: the flash
    controller with the chip behind it, and plain storage elsewhere. */
module BmcBus {
  import opened Bits
  import opened NorFlash

  const FMC_ADDR: word := 0x1E62_0000
  const FMC_MEM: word := 0x2000_0000
  const FMC_WINDOW: nat := 0x400_0000
  const FMC_CE0CTL: word := 0x10
  const FMC_CTL: word := 0x04

  /** One access at a flat address. */
  datatype BusOp =
    | R32(addr: word)
    | R8(addr: word)
    | W32(addr: word, val: word)
    | W8(addr: word, val8: byte)
  {
    predicate IsWrite() { W32? || W8? }
  }

  /** `ce0ctl` and `ctl` are the controller's registers, `wire` the bytes of the current
      chip-select frame. While the chip is not selected, the window shows what the controller
      itself fetches, whatever that is. */
  datatype Bmc = Bmc(ce0ctl: word, ctl: word, wire: seq<Wire>, nor: Nor, ram: map<word, byte>, fetch: nat -> byte)

  /** User mode (3 in the mode field) with the "stop active" bit clear: the chip is selected. */
  predicate Selected(b: Bmc) { b.ce0ctl % 8 == 3 }

  predicate InFlashWindow(addr: word) { 0x2000_0000 <= addr < 0x2400_0000 }

  function RamByte(b: Bmc, addr: word): byte {
    if addr in b.ram then b.ram[addr] else 0
  }

  /** A write of the chip-select control register: deselecting the chip ends the frame. */
  function SetCe0Ctl(b: Bmc, val: word): (r: Bmc)
    requires WellFormed(b.nor)
    ensures WellFormed(r.nor)
  {
    var b' := b.(ce0ctl := val);
    if Selected(b) == Selected(b') then b'
    else if Selected(b) then b'.(nor := Commit(b.nor, b.wire), wire := [])
    else b'.(wire := [])
  }

  /** Reads of the flash window clock bytes in while the chip is selected. */
  function FlashRead(b: Bmc, count: nat): (r: (Bmc, seq<byte>))
    requires WellFormed(b.nor) && Selected(b)
    ensures |r.1| == count
  {
    var w := Clock(b.nor, b.wire, count);
    (b.(wire := w), Bytes(w[|b.wire|..]))
  }

  /** Four bytes of the window while it is not. */
  function Fetched(b: Bmc, off: nat): (s: seq<byte>)
    ensures |s| == 4
  {
    [b.fetch(off), b.fetch(off + 1), b.fetch(off + 2), b.fetch(off + 3)]
  }

  /** Writes of the flash window clock bytes out while the chip is selected. */
  function FlashWrite(b: Bmc, out: seq<byte>): Bmc {
    if Selected(b) then b.(wire := b.wire + Outs(out)) else b
  }

  /** The effect and the result (0 for a write) of one access. */
  function BusStep(b: Bmc, op: BusOp): (r: (Bmc, word))
    requires WellFormed(b.nor)
    ensures WellFormed(r.0.nor)
  {
    match op
    case R32(a) =>
      if InFlashWindow(a) && !Selected(b) then (b, Le32(Fetched(b, a - 0x2000_0000)))
      else if InFlashWindow(a) then var (b', s) := FlashRead(b, 4); (b', Le32(s))
      else if a == 0x1E62_0010 then (b, b.ce0ctl)
      else if a == 0x1E62_0004 then (b, b.ctl)
      else (b, Le32([RamByte(b, a), RamByte(b, U32(a + 1)), RamByte(b, U32(a + 2)), RamByte(b, U32(a + 3))]))
    case R8(a) =>
      if InFlashWindow(a) && !Selected(b) then (b, b.fetch(a - 0x2000_0000))
      else if InFlashWindow(a) then var (b', s) := FlashRead(b, 1); (b', s[0])
      else (b, RamByte(b, a))
    case W32(a, v) =>
      if InFlashWindow(a) then (FlashWrite(b, LeBytes(v)), 0)
      else if a == 0x1E62_0010 then (SetCe0Ctl(b, v), 0)
      else if a == 0x1E62_0004 then (b.(ctl := v), 0)
      else
        var s := LeBytes(v);
        (b.(ram := b.ram[a := s[0]][U32(a + 1) := s[1]][U32(a + 2) := s[2]][U32(a + 3) := s[3]]), 0)
    case W8(a, v) =>
      if InFlashWindow(a) then (FlashWrite(b, [v]), 0) else (b.(ram := b.ram[a := v]), 0)
  }
}
