/** Decoding I2C traffic from monitored command registers (i2cExtra and i2cSmart in
    cmds/ast/ast.go). */
module I2cDecode {
  import opened Bits
  import opened Monitor

  const I2C_IDLE := 0
  const MTXD := 12
  const MTXACK := 15
  const MRX := 14

  /** The machine state and the command bits of a command register. */
  function StateOf(v: word): nat { v / 0x8_0000 % 0x10 }

  function CmdOf(v: word): nat { v % 0x400 }

  /** The BMC as one capture finds it: the I2C block and the DRAM, byte by byte. */
  datatype Env = Env(i2c: nat -> byte, dram: nat -> byte)

  function Load(mem: nat -> byte, off: nat): word { Le32([mem(off), mem(off + 1), mem(off + 2), mem(off + 3)]) }

  /** The decoder's memory of one bus. */
  datatype Ctxt = Ctxt(bus: nat, poolBase: nat, rx: bool, dmaAddr: word, dmaLen: word, cmd: nat, rbytes: word)

  /** The three extra words of a change; `Fatal` where the capture gives up. */
  datatype Extra = Aux(ctxt: Ctxt, aux: seq<word>) | Fatal

  const NOAUX: seq<word> := [0, 0, 0]

  // The sizes of the two regions; an access beyond panics.
  const I2C_SIZE: nat := 0x1000
  const DRAM_SIZE: nat := 0x2000_0000

  /** What a capture adds to a change, and how the bus's memory moves on. */
  function ExtraStep(x: Ctxt, env: Env, newVal: word, addr: nat): Extra {
    var base := addr / 0x40 * 0x40;
    var state, cmd := StateOf(newVal), CmdOf(newVal);
    if state == MRX then
      if x.rx then Aux(x, NOAUX)
      else Aux(x.(dmaAddr := Load(env.i2c, base + 0x24), dmaLen := Load(env.i2c, base + 0x28),
                  cmd := cmd, rbytes := 0, rx := true), NOAUX)
    else if state == MTXD then Aux(x, [Load(env.i2c, base + 0x20), 0, 0])
    else if state == MTXACK then
      if x.cmd == 0x98 then
        var ptrs := Load(env.i2c, base + 0x1c);
        var poolOff := x.poolBase + PoolWord(ptrs / 0x100_0000);
        if poolOff >= I2C_SIZE then Fatal
        else Aux(x, [ptrs, Load(env.i2c, poolOff), U32(poolOff)])
      else if x.cmd == 0x238 || x.cmd == 0x20 then
        if !x.rx || x.rbytes >= x.dmaLen || U32(x.dmaAddr + x.rbytes) / 4 * 4 >= DRAM_SIZE then Fatal
        else Aux(x.(rbytes := U32(x.rbytes + 1)),
                 [U32((x.rbytes + 1) * 0x100_0000),
                  Load(env.dram, U32(x.dmaAddr + x.rbytes) / 4 * 4), 0xffff_ffff])
      else Aux(x.(rx := false), NOAUX)
    else Aux(x.(rx := false), NOAUX)
  }

  /** `(rxptr-1)&^3`, in 32 bits. */
  function PoolWord(rxptr: nat): nat { U32(rxptr - 1) / 4 * 4 }

  // ---- Printing ----

  /** What is printed for a change: a sent byte, a received byte, a line end, the raw change for
      commands the decoder does not know, or nothing. */
  datatype Token = T(bus: nat, sent: byte) | R(bus: nat, got: byte) | NewLine | Raw(c: GpioChange) | Silent | Dead

  /** `i2cSmart` for one change. */
  function Print(c: GpioChange, bus: nat): Token
    requires |c.aux| == 3
  {
    var state, cmd := StateOf(c.newVal), CmdOf(c.newVal);
    if state == MTXD then
      if cmd !in {2, 0x102, 0x122} then Raw(c) else T(bus, c.aux[0] % 0x100)
    else if state == MTXACK then
      if cmd !in {0x98, 0x238, 0x20} then Raw(c)
      else
        var rxptr := c.aux[0] / 0x100_0000;
        if rxptr % 0x20 == 0 then Dead else R(bus, LeBytes(c.aux[1])[(rxptr - 1) % 4])
    else if state == I2C_IDLE then NewLine
    else Silent
  }

  /** The word at the 4-aligned address below `a` holds `a`'s byte at `a % 4`. */
  lemma ByteInWord(mem: nat -> byte, a: nat)
    ensures LeBytes(Load(mem, a / 4 * 4))[a % 4] == mem(a)
  {
    var w := a / 4 * 4;
    LeRoundTrip([mem(w), mem(w + 1), mem(w + 2), mem(w + 3)]);
    assert a == w + a % 4;
  }

  /** A captured and printed received byte of a DMA read. */
  ghost predicate DmaReading(x: Ctxt) {
    && x.rx && (x.cmd == 0x238 || x.cmd == 0x20) && x.rbytes < x.dmaLen
    && U32(x.dmaAddr + x.rbytes) < DRAM_SIZE
  }

  /** The address of the byte that is printed for the current position of a DMA read: the
      aligned word around it, at the place the byte count says. */
  function PrintedAddr(dmaAddr: word, rbytes: nat): nat { U32(dmaAddr + rbytes) / 4 * 4 + rbytes % 4 }

  /** That is the right byte exactly for buffers that start at a multiple of four. */
  lemma RightByte(dmaAddr: word, rbytes: nat)
    ensures PrintedAddr(dmaAddr, rbytes) == U32(dmaAddr + rbytes) <==> dmaAddr % 4 == 0
  {
    var s: nat := dmaAddr + rbytes;
    assert s == TWO32 * (s / TWO32) + U32(s);
    SameLowBits(s, U32(s), s / TWO32);
    AlignedSum(dmaAddr, rbytes);
  }

  lemma SameLowBits(s: nat, u: nat, q: nat)
    requires s == TWO32 * q + u
    ensures u % 4 == s % 4 && u == u / 4 * 4 + u % 4
  {
    assert s == 4 * (0x4000_0000 * q) + u;
  }

  lemma AlignedSum(a: nat, r: nat)
    ensures (a + r) % 4 == r % 4 <==> a % 4 == 0
  {
  }

  /** A word captured with a byte count prints as its byte at that count. */
  lemma CountedByte(c: GpioChange, bus: nat, n: nat, mem: nat -> byte, w: nat)
    requires StateOf(c.newVal) == MTXACK && CmdOf(c.newVal) in {0x98, 0x238, 0x20}
    requires |c.aux| == 3 && c.aux[0] == U32((n + 1) * 0x100_0000) && w % 4 == 0 && c.aux[1] == Load(mem, w)
    ensures Print(c, bus) == if (n + 1) % 0x20 == 0 then Dead else R(bus, mem(w + n % 4))
  {
    RxPointer(n);
    InPool(w, n % 4);
    ByteInWord(mem, w + n % 4);
  }

  /** Where such a read cannot go on, the capture gives up. */
  lemma DmaStops(x: Ctxt, env: Env, c: GpioChange)
    requires !DmaReading(x) && x.cmd in {0x238, 0x20} && StateOf(c.newVal) == MTXACK
    ensures ExtraStep(x, env, c.newVal, c.addr) == Fatal
  {
    if x.rx && x.rbytes < x.dmaLen { BeyondDram(U32(x.dmaAddr + x.rbytes)); }
  }

  lemma BeyondDram(a: nat)
    ensures a / 4 * 4 >= DRAM_SIZE <==> a >= DRAM_SIZE
  {
  }

  lemma DmaStep(x: Ctxt, env: Env, c: GpioChange)
    requires DmaReading(x) && StateOf(c.newVal) == MTXACK
    ensures ExtraStep(x, env, c.newVal, c.addr) == Aux(x.(rbytes := x.rbytes + 1),
      [U32((x.rbytes + 1) * 0x100_0000), Load(env.dram, U32(x.dmaAddr + x.rbytes) / 4 * 4), 0xffff_ffff])
  {
    assert U32(x.rbytes + 1) == x.rbytes + 1;
    BeyondDram(U32(x.dmaAddr + x.rbytes));
  }

  /** An acknowledged byte of a DMA read is printed, but every 32nd stops the program. */
  lemma DmaByte(x: Ctxt, env: Env, c: GpioChange)
    requires DmaReading(x) && StateOf(c.newVal) == MTXACK && CmdOf(c.newVal) in {0x98, 0x238, 0x20}
    ensures var e := ExtraStep(x, env, c.newVal, c.addr);
      e.Aux? && |e.aux| == 3 && e.ctxt == x.(rbytes := x.rbytes + 1)
      && Print(c.(aux := e.aux), x.bus) ==
        if (x.rbytes + 1) % 0x20 == 0 then Dead else R(x.bus, env.dram(PrintedAddr(x.dmaAddr, x.rbytes)))
  {
    DmaStep(x, env, c);
    var e := ExtraStep(x, env, c.newVal, c.addr);
    CountedByte(c.(aux := e.aux), x.bus, x.rbytes, env.dram, U32(x.dmaAddr + x.rbytes) / 4 * 4);
  }

  /** The byte count survives as the top byte of a 32-bit word. */
  lemma RxPointer(n: nat)
    ensures var p := U32((n + 1) * 0x100_0000) / 0x100_0000;
      p == (n + 1) % 0x100 && p % 0x20 == (n + 1) % 0x20 && (p > 0 ==> (p - 1) % 4 == n % 4)
  {
    var q, r := (n + 1) / 0x100, (n + 1) % 0x100;
    assert (n + 1) * 0x100_0000 == TWO32 * q + r * 0x100_0000;
    assert U32(TWO32 * q + r * 0x100_0000) == r * 0x100_0000;
  }

  /** The receive pointer. */
  function RxPtr(env: Env, c: GpioChange): nat { Load(env.i2c, c.addr / 0x40 * 0x40 + 0x1c) / 0x100_0000 }

  /** A pool read prints the byte just before the receive pointer, unless the pointer is 0, which
      makes the capture panic, or another multiple of 32, which stops the program at printing. */
  lemma PoolByte(x: Ctxt, env: Env, c: GpioChange)
    requires x.cmd == 0x98 && StateOf(c.newVal) == MTXACK && CmdOf(c.newVal) in {0x98, 0x238, 0x20}
    requires x.poolBase % 4 == 0 && x.poolBase <= 0xf00
    ensures ExtraStep(x, env, c.newVal, c.addr) == Fatal <==> RxPtr(env, c) == 0
    ensures RxPtr(env, c) != 0 ==>
      var e := ExtraStep(x, env, c.newVal, c.addr);
      && e.Aux? && |e.aux| == 3 && e.ctxt == x
      && Print(c.(aux := e.aux), x.bus) ==
           if RxPtr(env, c) % 0x20 == 0 then Dead else R(x.bus, env.i2c(x.poolBase + RxPtr(env, c) - 1))
  {
    PoolCaptured(x, env, c);
    var e := ExtraStep(x, env, c.newVal, c.addr);
    if e != Fatal { PoolPrinted(x, env, c.(aux := e.aux), RxPtr(env, c)); }
  }

  lemma PoolCaptured(x: Ctxt, env: Env, c: GpioChange)
    requires x.cmd == 0x98 && StateOf(c.newVal) == MTXACK && x.poolBase <= 0xf00
    ensures var ptrs, w := Load(env.i2c, c.addr / 0x40 * 0x40 + 0x1c), x.poolBase + PoolWord(RxPtr(env, c));
      ExtraStep(x, env, c.newVal, c.addr) ==
        if RxPtr(env, c) == 0 then Fatal else Aux(x, [ptrs, Load(env.i2c, w), U32(w)])
  {
    if RxPtr(env, c) != 0 { assert U32(RxPtr(env, c) - 1) == RxPtr(env, c) - 1; }
  }

  lemma PoolPrinted(x: Ctxt, env: Env, c: GpioChange, rxptr: nat)
    requires StateOf(c.newVal) == MTXACK && CmdOf(c.newVal) in {0x98, 0x238, 0x20} && x.poolBase % 4 == 0
    requires |c.aux| == 3 && c.aux[0] / 0x100_0000 == rxptr > 0
    requires c.aux[1] == Load(env.i2c, x.poolBase + PoolWord(rxptr))
    ensures Print(c, x.bus) == if rxptr % 0x20 == 0 then Dead else R(x.bus, env.i2c(x.poolBase + rxptr - 1))
  {
    assert U32(rxptr - 1) == rxptr - 1;
    InPool(x.poolBase, rxptr - 1);
    ByteInWord(env.i2c, x.poolBase + (rxptr - 1));
  }

  lemma InPool(base: nat, k: nat)
    requires base % 4 == 0
    ensures (base + k) / 4 * 4 == base + k / 4 * 4 && (base + k) % 4 == k % 4
  {
  }

  // ---- One bus over many captures ----

  /** One capture of a bus: the BMC as it was, and the change. */
  datatype Capture = Capture(env: Env, c: GpioChange)

  /** The bus's memory after its captures; None once the program has given up. */
  function After(x: Ctxt, evs: seq<Capture>): Extra {
    if evs == [] then Aux(x, NOAUX)
    else
      match After(x, evs[..|evs| - 1])
      case Fatal => Fatal
      case Aux(y, _) => var e := evs[|evs| - 1]; ExtraStep(y, e.env, e.c.newVal, e.c.addr)
  }

  /** What is printed for the captures of a bus. */
  function Tokens(x: Ctxt, evs: seq<Capture>): (t: seq<Token>)
    requires After(x, evs) != Fatal
    ensures |t| == |evs|
  {
    if evs == [] then []
    else
      var n := |evs| - 1;
      assert |After(x, evs).aux| == 3;
      Tokens(x, evs[..n]) + [Print(evs[n].c.(aux := After(x, evs).aux), After(x, evs[..n]).ctxt.bus)]
  }

  /** The received bytes among the printed tokens. */
  function Received(t: seq<Token>): seq<byte> {
    if t == [] then []
    else
      var k, before := t[|t| - 1], Received(t[..|t| - 1]);
      if k.R? then before + [k.got] else before
  }

  /** Captures within one read: receive states, acknowledged with supported commands. */
  ghost predicate InRead(evs: seq<Capture>) {
    forall i :: 0 <= i < |evs| ==> Receives(evs[i].c)
  }

  predicate Receives(c: GpioChange) {
    StateOf(c.newVal) == MRX || (StateOf(c.newVal) == MTXACK && CmdOf(c.newVal) in {0x98, 0x238, 0x20})
  }

  /** All of it is printed: neither the capture nor the printing gives up. */
  ghost predicate Reads(x: Ctxt, evs: seq<Capture>) { After(x, evs) != Fatal && Dead !in Tokens(x, evs) }

  /** One capture more. */
  lemma Unfold(x: Ctxt, evs: seq<Capture>, e: Capture)
    requires After(x, evs) != Fatal && ExtraStep(After(x, evs).ctxt, e.env, e.c.newVal, e.c.addr) != Fatal
    ensures var next := ExtraStep(After(x, evs).ctxt, e.env, e.c.newVal, e.c.addr);
      && After(x, evs + [e]) == next && |next.aux| == 3
      && Tokens(x, evs + [e]) == Tokens(x, evs) + [Print(e.c.(aux := next.aux), After(x, evs).ctxt.bus)]
  {
    assert (evs + [e])[..|evs|] == evs;
  }

  /** What went wrong stays wrong. */
  lemma ReadsBefore(x: Ctxt, evs: seq<Capture>, e: Capture)
    requires Reads(x, evs + [e])
    ensures Reads(x, evs) && ExtraStep(After(x, evs).ctxt, e.env, e.c.newVal, e.c.addr) != Fatal
  {
    assert (evs + [e])[..|evs|] == evs;
    Unfold(x, evs, e);
  }

  /** Captures that are printed, and one more: `aux` is what it adds, and `k` what is printed. */
  lemma ReadsMore(x: Ctxt, evs: seq<Capture>, e: Capture, y: Ctxt, z: Ctxt, aux: seq<word>, k: Token)
    requires Reads(x, evs) && After(x, evs).ctxt == y && |aux| == 3
    requires ExtraStep(y, e.env, e.c.newVal, e.c.addr) == Aux(z, aux) && Print(e.c.(aux := aux), y.bus) == k
    ensures Reads(x, evs + [e]) <==> k != Dead
    ensures After(x, evs + [e]) == Aux(z, aux)
    ensures Received(Tokens(x, evs + [e])) == Received(Tokens(x, evs)) + if k.R? then [k.got] else []
  {
    Unfold(x, evs, e);
    var t := Tokens(x, evs + [e]);
    assert t[..|t| - 1] == Tokens(x, evs);
  }

  /** One more that cannot be captured. */
  lemma ReadsNoMore(x: Ctxt, evs: seq<Capture>, e: Capture)
    requires Reads(x, evs) && ExtraStep(After(x, evs).ctxt, e.env, e.c.newVal, e.c.addr) == Fatal
    ensures !Reads(x, evs + [e])
  {
    assert (evs + [e])[..|evs|] == evs;
  }

  /** How many bytes the captures acknowledge. */
  function Acks(evs: seq<Capture>): nat {
    if evs == [] then 0
    else Acks(evs[..|evs| - 1]) + if StateOf(evs[|evs| - 1].c.newVal) == MTXACK then 1 else 0
  }

  /** The DRAM bytes at `addr`, `addr + 1`, ..., each as it was when it was acknowledged. */
  function DramBytes(evs: seq<Capture>, addr: word): seq<byte> {
    if evs == [] then []
    else
      var e, before := evs[|evs| - 1], DramBytes(evs[..|evs| - 1], addr);
      if StateOf(e.c.newVal) != MTXACK then before
      else before + [e.env.dram(addr + Acks(evs[..|evs| - 1]))]
  }

  /** A DMA read begins: the first receive state of a transfer fetches address and length. */
  ghost predicate BeginsDma(x: Ctxt, first: Capture) {
    !x.rx && StateOf(first.c.newVal) == MRX && CmdOf(first.c.newVal) in {0x238, 0x20}
  }

  /** The buffer address the hardware has at that moment, and its length. */
  function DmaAddr(e: Capture): word { Load(e.env.i2c, e.c.addr / 0x40 * 0x40 + 0x24) }

  function DmaLen(e: Capture): word { Load(e.env.i2c, e.c.addr / 0x40 * 0x40 + 0x28) }

  /** The buffer starts at a multiple of four and lies in the DRAM, no more bytes arrive than it
      holds, and at most 31. */
  ghost predicate DmaFits(evs: seq<Capture>)
    requires evs != []
  {
    && DmaAddr(evs[0]) % 4 == 0 && Acks(evs) <= DmaLen(evs[0]) && Acks(evs) <= 31
    && DmaAddr(evs[0]) + Acks(evs) <= DRAM_SIZE
  }

  /** The bytes that are printed for the acknowledges of a DMA read. */
  function PrintedBytes(evs: seq<Capture>, addr: word): seq<byte> {
    if evs == [] then []
    else
      var e, before := evs[|evs| - 1], PrintedBytes(evs[..|evs| - 1], addr);
      if StateOf(e.c.newVal) != MTXACK then before
      else before + [e.env.dram(PrintedAddr(addr, Acks(evs[..|evs| - 1])))]
  }

  predicate InDram(addr: word, k: nat) { U32(addr + k) < DRAM_SIZE }

  /** `n` bytes can be fetched and printed. */
  ghost predicate Fetchable(addr: word, len: word, n: nat) {
    n <= len && n <= 31 && forall k :: 0 <= k < n ==> InDram(addr, k)
  }

  /** The books of a DMA read after the captures `evs`: what was printed, and that the bus's memory
      has counted it. */
  ghost predicate DmaBooks(x: Ctxt, evs: seq<Capture>, addr: word, len: word, cmd: nat) {
    && Reads(x, evs) && Received(Tokens(x, evs)) == PrintedBytes(evs, addr) && Acks(evs) <= len
    && After(x, evs).ctxt == x.(rx := true, cmd := cmd, dmaAddr := addr, dmaLen := len, rbytes := Acks(evs))
  }

  lemma AcksMore(evs: seq<Capture>, e: Capture)
    ensures Acks(evs + [e]) == Acks(evs) + if StateOf(e.c.newVal) == MTXACK then 1 else 0
  {
    assert (evs + [e])[..|evs|] == evs;
  }

  lemma PrintedMore(evs: seq<Capture>, e: Capture, addr: word)
    ensures PrintedBytes(evs + [e], addr) == PrintedBytes(evs, addr) +
      if StateOf(e.c.newVal) == MTXACK then [e.env.dram(PrintedAddr(addr, Acks(evs)))] else []
  {
    assert (evs + [e])[..|evs|] == evs;
  }

  /** A receive state within a read changes nothing and prints nothing. */
  lemma StillReceiving(y: Ctxt, env: Env, c: GpioChange)
    requires y.rx && StateOf(c.newVal) == MRX
    ensures ExtraStep(y, env, c.newVal, c.addr) == Aux(y, NOAUX)
    ensures Print(c.(aux := NOAUX), y.bus) == Silent
  {
  }

  /** A further receive state of a DMA read, ... */
  lemma DmaNextReceive(x: Ctxt, evs: seq<Capture>, e: Capture, addr: word, len: word, cmd: nat)
    requires DmaBooks(x, evs, addr, len, cmd) && StateOf(e.c.newVal) == MRX
    ensures DmaBooks(x, evs + [e], addr, len, cmd)
  {
    AcksMore(evs, e);
    PrintedMore(evs, e, addr);
    var y := After(x, evs).ctxt;
    StillReceiving(y, e.env, e.c);
    ReadsMore(x, evs, e, y, y, NOAUX, Silent);
  }

  /** ... or an acknowledge, which is printed if the byte can be fetched, ... */
  lemma DmaNextAck(x: Ctxt, evs: seq<Capture>, e: Capture, addr: word, len: word, cmd: nat, n: nat, y: Ctxt)
    requires DmaBooks(x, evs, addr, len, cmd) && n == Acks(evs) < len && After(x, evs).ctxt == y
    requires DmaReading(y) && (n + 1) % 0x20 != 0
    requires StateOf(e.c.newVal) == MTXACK && CmdOf(e.c.newVal) in {0x98, 0x238, 0x20}
    ensures DmaBooks(x, evs + [e], addr, len, cmd)
  {
    var evs1, t, before := evs + [e], Tokens(x, evs), PrintedBytes(evs, addr);
    var b := e.env.dram(PrintedAddr(addr, n));
    assert Acks(evs1) == n + 1 by { AcksMore(evs, e); }
    assert PrintedBytes(evs1, addr) == before + [b] by { PrintedMore(evs, e, addr); }
    DmaAckUnfolds(x, evs, e, y);
    DmaAckBooked(x, evs1, t, R(y.bus, b), before, addr, len, cmd, n);
  }

  /** ... and otherwise not. */
  lemma DmaLastAck(x: Ctxt, evs: seq<Capture>, e: Capture, y: Ctxt, t: seq<Token>)
    requires Reads(x, evs) && After(x, evs).ctxt == y && Tokens(x, evs) == t && y.cmd in {0x238, 0x20}
    requires DmaReading(y) ==> (y.rbytes + 1) % 0x20 == 0
    requires StateOf(e.c.newVal) == MTXACK && CmdOf(e.c.newVal) in {0x98, 0x238, 0x20}
    ensures !Reads(x, evs + [e])
  {
    if DmaReading(y) { DmaDies(x, evs, e, y, t); } else { DmaNoMore(x, evs, e, y); }
  }

  lemma DmaDies(x: Ctxt, evs: seq<Capture>, e: Capture, y: Ctxt, t: seq<Token>)
    requires After(x, evs).Aux? && After(x, evs).ctxt == y && Tokens(x, evs) == t && DmaReading(y)
    requires StateOf(e.c.newVal) == MTXACK && CmdOf(e.c.newVal) in {0x98, 0x238, 0x20} && (y.rbytes + 1) % 0x20 == 0
    ensures !Reads(x, evs + [e])
  {
    DmaAckUnfolds(x, evs, e, y);
    DeadToken(x, evs + [e], t);
  }

  lemma DeadToken(x: Ctxt, evs: seq<Capture>, t: seq<Token>)
    requires After(x, evs) != Fatal && Tokens(x, evs) == t + [Dead]
    ensures !Reads(x, evs)
  {
    assert (t + [Dead])[|t|] == Dead;
  }

  lemma DmaNoMore(x: Ctxt, evs: seq<Capture>, e: Capture, y: Ctxt)
    requires Reads(x, evs) && After(x, evs).ctxt == y && !DmaReading(y) && y.cmd in {0x238, 0x20}
    requires StateOf(e.c.newVal) == MTXACK
    ensures !Reads(x, evs + [e])
  {
    DmaStops(y, e.env, e.c);
    ReadsNoMore(x, evs, e);
  }

  /** What an acknowledge does, ... */
  lemma DmaAckUnfolds(x: Ctxt, evs: seq<Capture>, e: Capture, y: Ctxt)
    requires After(x, evs).Aux? && After(x, evs).ctxt == y && DmaReading(y)
    requires StateOf(e.c.newVal) == MTXACK && CmdOf(e.c.newVal) in {0x98, 0x238, 0x20}
    ensures After(x, evs + [e]).Aux? && After(x, evs + [e]).ctxt == y.(rbytes := y.rbytes + 1)
    ensures Tokens(x, evs + [e]) == Tokens(x, evs) +
      [if (y.rbytes + 1) % 0x20 == 0 then Dead else R(y.bus, e.env.dram(PrintedAddr(y.dmaAddr, y.rbytes)))]
  {
    DmaByte(y, e.env, e.c);
    Unfold(x, evs, e);
  }

  /** ... entered in the books. */
  lemma DmaAckBooked(x: Ctxt, evs: seq<Capture>, t: seq<Token>, k: Token, before: seq<byte>,
                     addr: word, len: word, cmd: nat, n: nat)
    requires After(x, evs).Aux? && Tokens(x, evs) == t + [k] && Dead !in t && k.R? && Received(t) == before
    requires PrintedBytes(evs, addr) == before + [k.got] && Acks(evs) == n + 1 <= len
    requires After(x, evs).ctxt == x.(rx := true, cmd := cmd, dmaAddr := addr, dmaLen := len, rbytes := n + 1)
    ensures DmaBooks(x, evs, addr, len, cmd)
  {
    ReceivedMore(t, k);
  }

  lemma ReceivedMore(t: seq<Token>, k: Token)
    ensures Received(t + [k]) == Received(t) + if k.R? then [k.got] else []
    ensures Dead !in t + [k] <==> Dead !in t && k != Dead
  {
    assert (t + [k])[..|t|] == t;
  }

  lemma OneMoreByte(addr: word, len: word, n: nat)
    requires Fetchable(addr, len, n)
    ensures Fetchable(addr, len, n + 1) <==> n < len && (n + 1) % 0x20 != 0 && InDram(addr, n)
  {
  }

  /** The first capture of a DMA read. */
  lemma DmaFirst(x: Ctxt, e: Capture)
    requires BeginsDma(x, e)
    ensures DmaBooks(x, [e], DmaAddr(e), DmaLen(e), CmdOf(e.c.newVal)) && Acks([e]) == 0
  {
    FirstStep(x, e);
    AcksMore([], e);
    PrintedMore([], e, DmaAddr(e));
    var y := x.(rx := true, cmd := CmdOf(e.c.newVal), dmaAddr := DmaAddr(e), dmaLen := DmaLen(e), rbytes := 0);
    ReadsMore(x, [], e, x, y, NOAUX, Silent);
    assert [] + [e] == [e];
  }

  /** The receive state that begins a read fetches the DMA registers. */
  lemma FirstStep(x: Ctxt, e: Capture)
    requires !x.rx && StateOf(e.c.newVal) == MRX
    ensures ExtraStep(x, e.env, e.c.newVal, e.c.addr) ==
      Aux(x.(rx := true, cmd := CmdOf(e.c.newVal), dmaAddr := DmaAddr(e), dmaLen := DmaLen(e), rbytes := 0), NOAUX)
    ensures Print(e.c.(aux := NOAUX), x.bus) == Silent
  {
  }

  /** A DMA read, into whatever buffer: it is printed in full exactly if its bytes can be fetched,
      and this is what is printed. */
  lemma {:induction false} DmaRead(x: Ctxt, evs: seq<Capture>)
    requires evs != [] && BeginsDma(x, evs[0]) && InRead(evs)
    ensures Reads(x, evs) <==> Fetchable(DmaAddr(evs[0]), DmaLen(evs[0]), Acks(evs))
    ensures Reads(x, evs) ==> DmaBooks(x, evs, DmaAddr(evs[0]), DmaLen(evs[0]), CmdOf(evs[0].c.newVal))
    decreases |evs|
  {
    var n := |evs| - 1;
    var init, e := evs[..n], evs[n];
    if n == 0 {
      assert evs == [evs[0]];
      DmaFirst(x, evs[0]);
    } else {
      assert evs == init + [e] && init[0] == evs[0];
      DmaRead(x, init);
      DmaNext(x, init, e);
    }
  }

  lemma {:induction false} DmaNext(x: Ctxt, init: seq<Capture>, e: Capture)
    requires init != [] && BeginsDma(x, init[0]) && Receives(e.c)
    requires Reads(x, init) <==> Fetchable(DmaAddr(init[0]), DmaLen(init[0]), Acks(init))
    requires Reads(x, init) ==> DmaBooks(x, init, DmaAddr(init[0]), DmaLen(init[0]), CmdOf(init[0].c.newVal))
    ensures Reads(x, init + [e]) <==> Fetchable(DmaAddr(init[0]), DmaLen(init[0]), Acks(init + [e]))
    ensures Reads(x, init + [e]) ==>
      DmaBooks(x, init + [e], DmaAddr(init[0]), DmaLen(init[0]), CmdOf(init[0].c.newVal))
  {
    var addr, len, cmd := DmaAddr(init[0]), DmaLen(init[0]), CmdOf(init[0].c.newVal);
    AcksMore(init, e);
    if !Reads(x, init) {
      if Reads(x, init + [e]) { ReadsBefore(x, init, e); }
    } else if StateOf(e.c.newVal) != MTXACK {
      DmaNextReceive(x, init, e, addr, len, cmd);
    } else {
      var n, y := Acks(init), After(x, init).ctxt;
      OneMoreByte(addr, len, n);
      ReadingOn(y, addr, len, n);
      if Fetchable(addr, len, n + 1) {
        DmaNextAck(x, init, e, addr, len, cmd, n, y);
      } else {
        DmaLastAck(x, init, e, y, Tokens(x, init));
      }
    }
  }

  lemma ReadingOn(y: Ctxt, addr: word, len: word, n: nat)
    requires y.rx && y.cmd in {0x238, 0x20} && y.dmaAddr == addr && y.dmaLen == len && y.rbytes == n
    ensures DmaReading(y) <==> n < len && InDram(addr, n)
  {
  }

  /** The tokens show exactly the DRAM bytes that the captures acknowledge, in order. */
  ghost predicate Shows(t: seq<Token>, evs: seq<Capture>, addr: word) {
    Received(t) == DramBytes(evs, addr) && Dead !in t
  }

  /** In a buffer that starts at a multiple of four, these are the bytes read. */
  lemma {:induction false} PrintedRight(evs: seq<Capture>, addr: word)
    requires addr % 4 == 0 && addr + Acks(evs) <= DRAM_SIZE
    ensures PrintedBytes(evs, addr) == DramBytes(evs, addr)
    decreases |evs|
  {
    if evs != [] {
      var init := evs[..|evs| - 1];
      AcksMore(init, evs[|evs| - 1]);
      assert evs == init + [evs[|evs| - 1]];
      PrintedRight(init, addr);
      RightByte(addr, Acks(init));
    }
  }

  /** A DMA read of at most 31 bytes into a 4-aligned buffer prints the DRAM bytes in order,
      nothing else, and is not cut short. */
  lemma DmaReadPrinted(x: Ctxt, evs: seq<Capture>)
    requires evs != [] && BeginsDma(x, evs[0]) && InRead(evs) && DmaFits(evs)
    ensures DmaBooks(x, evs, DmaAddr(evs[0]), DmaLen(evs[0]), CmdOf(evs[0].c.newVal))
    ensures Shows(Tokens(x, evs), evs, DmaAddr(evs[0]))
  {
    FitsFetchable(DmaAddr(evs[0]), DmaLen(evs[0]), Acks(evs));
    DmaRead(x, evs);
    PrintedRight(evs, DmaAddr(evs[0]));
  }

  lemma FitsFetchable(addr: word, len: word, n: nat)
    requires n <= len && n <= 31 && addr + n <= DRAM_SIZE
    ensures Fetchable(addr, len, n)
  {
    forall k | 0 <= k < n ensures InDram(addr, k) {
      assert U32(addr + k) == addr + k;
    }
  }

  // ---- No other DMA read is printed right ----

  /** The same captures over other DRAM contents. */
  function WithDram(evs: seq<Capture>, dram: nat -> byte): (r: seq<Capture>)
    ensures |r| == |evs|
  {
    if evs == [] then []
    else
      var e := evs[|evs| - 1];
      WithDram(evs[..|evs| - 1], dram) + [Capture(e.env.(dram := dram), e.c)]
  }

  lemma {:induction false} WithDramAt(evs: seq<Capture>, dram: nat -> byte)
    ensures forall i :: 0 <= i < |evs| ==> WithDram(evs, dram)[i] == Capture(evs[i].env.(dram := dram), evs[i].c)
    decreases |evs|
  {
    if evs != [] { WithDramAt(evs[..|evs| - 1], dram); }
  }

  lemma {:induction false} WithDramAcks(evs: seq<Capture>, dram: nat -> byte)
    ensures Acks(WithDram(evs, dram)) == Acks(evs)
    decreases |evs|
  {
    if evs != [] {
      var init, e := evs[..|evs| - 1], evs[|evs| - 1];
      WithDramAcks(init, dram);
      AcksMore(WithDram(init, dram), Capture(e.env.(dram := dram), e.c));
    }
  }

  /** Of unchanging contents byte `k` printed is that at `PrintedAddr`, and byte `k` read the one at
      `addr + k`. */
  lemma {:induction false} BytesOf(evs: seq<Capture>, dram: nat -> byte, addr: word)
    requires forall i :: 0 <= i < |evs| ==> evs[i].env.dram == dram
    ensures |PrintedBytes(evs, addr)| == |DramBytes(evs, addr)| == Acks(evs)
    ensures forall k :: 0 <= k < Acks(evs) ==> PrintedBytes(evs, addr)[k] == dram(PrintedAddr(addr, k))
    ensures forall k :: 0 <= k < Acks(evs) ==> DramBytes(evs, addr)[k] == dram(addr + k)
    decreases |evs|
  {
    if evs != [] { BytesOf(evs[..|evs| - 1], dram, addr); }
  }

  /** The read is printed as it should be. */
  ghost predicate PrintsDram(x: Ctxt, evs: seq<Capture>)
    requires evs != []
  {
    After(x, evs) != Fatal && Shows(Tokens(x, evs), evs, DmaAddr(evs[0]))
  }

  /** A DMA read is printed as it should be, whatever the DRAM holds, exactly if it fits (or reads
      nothing). */
  lemma DmaExactly(x: Ctxt, evs: seq<Capture>)
    requires evs != [] && BeginsDma(x, evs[0]) && InRead(evs)
    ensures AlwaysPrints(x, evs) <==> Acks(evs) == 0 || DmaFits(evs)
  {
    if Acks(evs) == 0 || DmaFits(evs) {
      forall dram: nat -> byte ensures PrintsDram(x, WithDram(evs, dram)) {
        FitsPrints(x, evs, dram);
      }
    }
    if AlwaysPrints(x, evs) && Acks(evs) > 0 {
      assert PrintsDram(x, WithDram(evs, Marker(DmaAddr(evs[0]))));
      PrintsFits(x, evs);
    }
  }

  /** Whatever the DRAM holds. */
  ghost predicate AlwaysPrints(x: Ctxt, evs: seq<Capture>)
    requires evs != []
  {
    forall dram: nat -> byte :: PrintsDram(x, WithDram(evs, dram))
  }

  lemma SameRead(x: Ctxt, evs: seq<Capture>, dram: nat -> byte)
    requires evs != [] && BeginsDma(x, evs[0]) && InRead(evs)
    ensures var r := WithDram(evs, dram);
      && BeginsDma(x, r[0]) && InRead(r) && Acks(r) == Acks(evs)
      && DmaAddr(r[0]) == DmaAddr(evs[0]) && DmaLen(r[0]) == DmaLen(evs[0])
      && forall i :: 0 <= i < |r| ==> r[i].env.dram == dram
  {
    WithDramAt(evs, dram);
    WithDramAcks(evs, dram);
    var r := WithDram(evs, dram);
    forall i | 0 <= i < |r| ensures Receives(r[i].c) && r[i].env.dram == dram {
      assert r[i] == Capture(evs[i].env.(dram := dram), evs[i].c) && Receives(evs[i].c);
    }
  }

  lemma FitsPrints(x: Ctxt, evs: seq<Capture>, dram: nat -> byte)
    requires evs != [] && BeginsDma(x, evs[0]) && InRead(evs) && (Acks(evs) == 0 || DmaFits(evs))
    ensures PrintsDram(x, WithDram(evs, dram))
  {
    var r := WithDram(evs, dram);
    SameRead(x, evs, dram);
    if Acks(evs) == 0 {
      DmaRead(x, r);
      BytesOf(r, dram, DmaAddr(r[0]));
    } else {
      DmaReadPrinted(x, r);
    }
  }

  /** A DRAM that tells the buffer's first byte from all others. */
  function Marker(addr: word): nat -> byte { (a: nat) => if a == addr then 1 else 0 }

  lemma PrintsFits(x: Ctxt, evs: seq<Capture>)
    requires evs != [] && BeginsDma(x, evs[0]) && InRead(evs) && Acks(evs) > 0
    requires PrintsDram(x, WithDram(evs, Marker(DmaAddr(evs[0]))))
    ensures DmaFits(evs)
  {
    var addr := DmaAddr(evs[0]);
    var r := WithDram(evs, Marker(addr));
    SameRead(x, evs, Marker(addr));
    DmaRead(x, r);
    BytesOf(r, Marker(addr), addr);
    assert Marker(addr)(PrintedAddr(addr, 0)) == PrintedBytes(r, addr)[0];
    assert Marker(addr)(addr) == DramBytes(r, addr)[0] == PrintedBytes(r, addr)[0];
    RightByte(addr, 0);
    EndsInDram(addr, Acks(evs));
  }

  lemma EndsInDram(addr: word, n: nat)
    requires 0 < n <= 31 && forall k :: 0 <= k < n ==> InDram(addr, k)
    ensures addr + n <= DRAM_SIZE && U32(addr + 0) == addr
  {
    assert InDram(addr, 0) && InDram(addr, n - 1);
  }

  // ---- Pool reads ----

  /** A pool read begins. */
  ghost predicate BeginsPool(x: Ctxt, first: Capture) {
    !x.rx && StateOf(first.c.newVal) == MRX && CmdOf(first.c.newVal) == 0x98
  }

  /** Every acknowledge finds a receive pointer that is no multiple of 32. */
  ghost predicate PointersFit(evs: seq<Capture>) { forall i :: 0 <= i < |evs| ==> PointerFits(evs[i]) }

  predicate PointerFits(e: Capture) { StateOf(e.c.newVal) == MTXACK ==> RxPtr(e.env, e.c) % 0x20 != 0 }

  /** The bytes before the receive pointers, each as it was when it was acknowledged. */
  function PoolBytes(evs: seq<Capture>, base: nat): seq<byte> {
    if evs == [] then []
    else
      var e, before := evs[|evs| - 1], PoolBytes(evs[..|evs| - 1], base);
      var p := RxPtr(e.env, e.c);
      if StateOf(e.c.newVal) != MTXACK || p == 0 then before else before + [e.env.i2c(base + p - 1)]
  }

  /** The books of a pool read. */
  ghost predicate PoolBooks(x: Ctxt, evs: seq<Capture>, y: Ctxt) {
    && Reads(x, evs) && Received(Tokens(x, evs)) == PoolBytes(evs, x.poolBase) && After(x, evs).ctxt == y
    && y.rx && y.cmd == 0x98 && y.poolBase == x.poolBase && y.bus == x.bus
  }

  /** A bus's part of the pool starts at a multiple of four and lies in the I2C block. */
  ghost predicate PoolPlaced(x: Ctxt) { x.poolBase % 4 == 0 && x.poolBase <= 0xf00 }

  lemma PoolMore(evs: seq<Capture>, e: Capture, base: nat, p: nat)
    requires p == RxPtr(e.env, e.c)
    ensures PoolBytes(evs + [e], base) == PoolBytes(evs, base) +
      if StateOf(e.c.newVal) != MTXACK || p == 0 then [] else [e.env.i2c(base + p - 1)]
  {
    assert (evs + [e])[..|evs|] == evs;
  }

  /** A further receive state of a pool read, ... */
  lemma PoolNextReceive(x: Ctxt, evs: seq<Capture>, e: Capture, y: Ctxt)
    requires PoolBooks(x, evs, y) && StateOf(e.c.newVal) == MRX
    ensures PoolBooks(x, evs + [e], y)
  {
    PoolMore(evs, e, x.poolBase, RxPtr(e.env, e.c));
    StillReceiving(y, e.env, e.c);
    ReadsMore(x, evs, e, y, y, NOAUX, Silent);
  }

  /** ... an acknowledge with a pointer that fits, ... */
  lemma PoolNextAck(x: Ctxt, evs: seq<Capture>, e: Capture, y: Ctxt, p: nat)
    requires PoolBooks(x, evs, y) && PoolPlaced(x) && p == RxPtr(e.env, e.c) && p % 0x20 != 0
    requires StateOf(e.c.newVal) == MTXACK && CmdOf(e.c.newVal) in {0x98, 0x238, 0x20}
    ensures PoolBooks(x, evs + [e], y)
  {
    var evs1, t, before := evs + [e], Tokens(x, evs), PoolBytes(evs, x.poolBase);
    var b := e.env.i2c(y.poolBase + p - 1);
    assert PoolBytes(evs1, x.poolBase) == before + [b] by { PoolMore(evs, e, x.poolBase, p); }
    PoolAckUnfolds(x, evs, e, y, p);
    PoolAckBooked(x, evs1, y, t, R(y.bus, b), before);
  }

  lemma PoolAckBooked(x: Ctxt, evs: seq<Capture>, y: Ctxt, t: seq<Token>, k: Token, before: seq<byte>)
    requires After(x, evs).Aux? && Tokens(x, evs) == t + [k] && Dead !in t && k.R? && Received(t) == before
    requires After(x, evs).ctxt == y && PoolBytes(evs, x.poolBase) == before + [k.got]
    requires y.rx && y.cmd == 0x98 && y.poolBase == x.poolBase && y.bus == x.bus
    ensures PoolBooks(x, evs, y)
  {
    ReceivedMore(t, k);
  }

  /** ... and one with another. */
  lemma PoolLastAck(x: Ctxt, evs: seq<Capture>, e: Capture, y: Ctxt, p: nat)
    requires PoolBooks(x, evs, y) && PoolPlaced(x) && p == RxPtr(e.env, e.c) && p % 0x20 == 0
    requires StateOf(e.c.newVal) == MTXACK && CmdOf(e.c.newVal) in {0x98, 0x238, 0x20}
    ensures !Reads(x, evs + [e])
  {
    if p == 0 {
      PoolNoMore(x, evs, e, y);
    } else {
      PoolAckUnfolds(x, evs, e, y, p);
      DeadToken(x, evs + [e], Tokens(x, evs));
    }
  }

  /** A further capture of a pool read. */
  lemma PoolNext(x: Ctxt, evs: seq<Capture>, e: Capture, y: Ctxt)
    requires PoolBooks(x, evs, y) && PoolPlaced(x) && Receives(e.c)
    ensures Reads(x, evs + [e]) <==> PointerFits(e)
    ensures Reads(x, evs + [e]) ==> PoolBooks(x, evs + [e], y)
  {
    var p: nat := RxPtr(e.env, e.c);
    if StateOf(e.c.newVal) != MTXACK {
      PoolNextReceive(x, evs, e, y);
    } else if p % 0x20 != 0 {
      PoolNextAck(x, evs, e, y, p);
    } else {
      PoolLastAck(x, evs, e, y, p);
    }
  }

  lemma PoolNoMore(x: Ctxt, evs: seq<Capture>, e: Capture, y: Ctxt)
    requires Reads(x, evs) && After(x, evs).ctxt == y && y.cmd == 0x98 && PoolPlaced(y) && RxPtr(e.env, e.c) == 0
    requires StateOf(e.c.newVal) == MTXACK && CmdOf(e.c.newVal) in {0x98, 0x238, 0x20}
    ensures !Reads(x, evs + [e])
  {
    PoolByte(y, e.env, e.c);
    ReadsNoMore(x, evs, e);
  }

  lemma PoolAckUnfolds(x: Ctxt, evs: seq<Capture>, e: Capture, y: Ctxt, p: nat)
    requires After(x, evs).Aux? && After(x, evs).ctxt == y && y.cmd == 0x98 && PoolPlaced(y)
    requires StateOf(e.c.newVal) == MTXACK && CmdOf(e.c.newVal) in {0x98, 0x238, 0x20}
    requires p == RxPtr(e.env, e.c) > 0
    ensures After(x, evs + [e]).Aux? && After(x, evs + [e]).ctxt == y
    ensures Tokens(x, evs + [e]) == Tokens(x, evs) +
      [if p % 0x20 == 0 then Dead else R(y.bus, e.env.i2c(y.poolBase + p - 1))]
  {
    PoolByte(y, e.env, e.c);
    Unfold(x, evs, e);
  }

  lemma PoolFirst(x: Ctxt, e: Capture) returns (y: Ctxt)
    requires BeginsPool(x, e)
    ensures PoolBooks(x, [e], y)
  {
    FirstStep(x, e);
    y := x.(rx := true, cmd := CmdOf(e.c.newVal), dmaAddr := DmaAddr(e), dmaLen := DmaLen(e), rbytes := 0);
    ReadsMore(x, [], e, x, y, NOAUX, Silent);
    assert [] + [e] == [e];
    assert [e][..0] == [];
  }

  /** A pool read is printed in full exactly if the receive pointers fit, and then it is the bytes
      before them, in order. */
  lemma {:induction false} PoolReadPrinted(x: Ctxt, evs: seq<Capture>) returns (y: Ctxt)
    requires evs != [] && BeginsPool(x, evs[0]) && InRead(evs) && PoolPlaced(x)
    ensures Reads(x, evs) <==> PointersFit(evs)
    ensures Reads(x, evs) ==> PoolBooks(x, evs, y)
    decreases |evs|
  {
    var n := |evs| - 1;
    var init, e := evs[..n], evs[n];
    if n == 0 {
      assert evs == [evs[0]];
      y := PoolFirst(x, evs[0]);
    } else {
      assert evs == init + [e] && init[0] == evs[0];
      y := PoolReadPrinted(x, init);
      FitMore(init, e);
      if Reads(x, init) {
        PoolNext(x, init, e, y);
      } else if Reads(x, evs) {
        ReadsBefore(x, init, e);
      }
    }
  }

  lemma FitMore(evs: seq<Capture>, e: Capture)
    ensures PointersFit(evs + [e]) <==> PointersFit(evs) && PointerFits(e)
  {
    var all := evs + [e];
    assert all[|evs|] == e;
    if PointersFit(all) {
      forall i | 0 <= i < |evs| ensures PointerFits(evs[i]) { assert all[i] == evs[i]; }
    }
  }

  // ---- A read somewhere in a run ----

  /** Decoding on from where the first captures left off. */
  lemma {:induction false} Resumes(x: Ctxt, a: seq<Capture>, b: seq<Capture>)
    requires After(x, a + b) != Fatal
    ensures After(x, a) != Fatal && After(After(x, a).ctxt, b) != Fatal
    ensures After(x, a + b).ctxt == After(After(x, a).ctxt, b).ctxt
    ensures Tokens(x, a + b) == Tokens(x, a) + Tokens(After(x, a).ctxt, b)
    decreases |b|
  {
    if b == [] {
      assert a + b == a;
    } else {
      var n := |b| - 1;
      assert (a + b)[..|a + b| - 1] == a + b[..n];
      assert (a + b)[|a + b| - 1] == b[n];
      Resumes(x, a, b[..n]);
    }
  }

  /** Wherever `evs` stands in a bus's captures, it is decoded from the memory the ones before left. */
  lemma Segment(x: Ctxt, a: seq<Capture>, evs: seq<Capture>, b: seq<Capture>)
    requires After(x, a + evs + b) != Fatal
    ensures After(x, a) != Fatal && After(After(x, a).ctxt, evs) != Fatal
    ensures |Tokens(x, a + evs + b)| == |a| + |evs| + |b|
    ensures Tokens(x, a + evs + b)[|a|..|a| + |evs|] == Tokens(After(x, a).ctxt, evs)
  {
    Resumes(x, a + evs, b);
    Resumes(x, a, evs);
    var t := Tokens(x, a) + Tokens(After(x, a).ctxt, evs);
    assert Tokens(x, a + evs + b)[..|a| + |evs|] == t;
  }

  /** Wherever a DMA read that fits takes place, exactly its DRAM bytes are printed for it; ... */
  lemma DmaSegment(x: Ctxt, a: seq<Capture>, evs: seq<Capture>, b: seq<Capture>)
    requires After(x, a + evs + b) != Fatal && evs != [] && InRead(evs) && DmaFits(evs)
    requires After(x, a) != Fatal ==> BeginsDma(After(x, a).ctxt, evs[0])
    ensures |Tokens(x, a + evs + b)| == |a| + |evs| + |b|
    ensures Shows(Tokens(x, a + evs + b)[|a|..|a| + |evs|], evs, DmaAddr(evs[0]))
  {
    Segment(x, a, evs, b);
    DmaReadPrinted(After(x, a).ctxt, evs);
  }

  /** ... and wherever a pool read does, exactly the bytes before its receive pointers. */
  lemma PoolSegment(x: Ctxt, a: seq<Capture>, evs: seq<Capture>, b: seq<Capture>)
    requires After(x, a + evs + b) != Fatal && evs != [] && InRead(evs) && PointersFit(evs) && PoolPlaced(x)
    requires After(x, a) != Fatal ==> BeginsPool(After(x, a).ctxt, evs[0])
    ensures |Tokens(x, a + evs + b)| == |a| + |evs| + |b|
    ensures var t := Tokens(x, a + evs + b)[|a|..|a| + |evs|]; Received(t) == PoolBytes(evs, x.poolBase) && Dead !in t
  {
    Segment(x, a, evs, b);
    PoolStays(x, a);
    var y := PoolReadPrinted(After(x, a).ctxt, evs);
  }

  lemma {:induction false} PoolStays(x: Ctxt, evs: seq<Capture>)
    requires After(x, evs) != Fatal
    ensures After(x, evs).ctxt.poolBase == x.poolBase
    decreases |evs|
  {
    if evs != [] { PoolStays(x, evs[..|evs| - 1]); }
  }

  // ---- All busses, capture and printing across batches ----

  /** The capture hook's state: every bus's memory, and whether the program has given up. */
  datatype Hook = Hook(busses: seq<Ctxt>, calls: nat, dead: bool)

  /** The hook the monitor calls; `env(n)` is the BMC as the n-th change is captured. */
  function Captured(env: nat -> Env, h: Hook, c: GpioChange): (Hook, seq<word>) {
    if h.dead || c.mon >= |h.busses| then (h.(dead := true), NOAUX)
    else
      match ExtraStep(h.busses[c.mon], env(h.calls), c.newVal, c.addr)
      case Fatal => (h.(dead := true), NOAUX)
      case Aux(x, aux) => (h.(busses := h.busses[c.mon := x], calls := h.calls + 1), aux)
  }

  function CaptureFn(env: nat -> Env): (Hook, GpioChange) -> (Hook, seq<word>) {
    (h: Hook, c: GpioChange) => Captured(env, h, c)
  }

  /** The captures of bus `m` among the changes `all`. */
  function Of(env: nat -> Env, all: seq<GpioChange>, m: nat): seq<Capture> {
    if all == [] then []
    else
      var n := |all| - 1;
      Of(env, all[..n], m) + if all[n].mon == m then [Capture(env(n), all[n].(aux := []))] else []
  }

  /** What is printed of bus `m` for recorded changes: the decoder sees nothing but them. */
  function Printed(busses: seq<Ctxt>, all: seq<GpioChange>, m: nat): seq<Token>
    requires m < |busses| && forall c :: c in all ==> |c.aux| == 3
  {
    if all == [] then []
    else
      var n := |all| - 1;
      Printed(busses, all[..n], m) + if all[n].mon == m then [Print(all[n], busses[m].bus)] else []
  }

  /** Nothing but the number of a bus is constant about its memory. */
  lemma BusStays(x: Ctxt, env: Env, newVal: word, addr: nat)
    ensures var e := ExtraStep(x, env, newVal, addr);
      e.Aux? ==> |e.aux| == 3 && e.ctxt.bus == x.bus
  {
  }

  /** The books of all busses after the changes `all`. */
  ghost predicate BusBooks(env: nat -> Env, h0: Hook, h: Hook, all: seq<GpioChange>) {
    && !h.dead && h.calls == |all| && |h.busses| == |h0.busses|
    && (forall c :: c in all ==> |c.aux| == 3)
    && forall m :: 0 <= m < |h0.busses| ==> BusBook(env, h0, h, all, m)
  }

  ghost predicate BusBook(env: nat -> Env, h0: Hook, h: Hook, all: seq<GpioChange>, m: nat)
    requires m < |h0.busses| == |h.busses| && forall c :: c in all ==> |c.aux| == 3
  {
    var evs := Of(env, all, m);
    && After(h0.busses[m], evs) != Fatal && After(h0.busses[m], evs).ctxt == h.busses[m]
    && h.busses[m].bus == h0.busses[m].bus
    && Printed(h0.busses, all, m) == Tokens(h0.busses[m], evs)
  }

  /** One more change on one of the busses. */
  lemma BusNext(env: nat -> Env, h0: Hook, h: Hook, all: seq<GpioChange>, c: GpioChange, m: nat)
    requires BusBooks(env, h0, h, all) && m < |h0.busses| && c.mon < |h0.busses|
    requires ExtraStep(h.busses[c.mon], env(h.calls), c.newVal, c.addr).Aux?
    requires |c.aux| == 3 && c.aux == ExtraStep(h.busses[c.mon], env(h.calls), c.newVal, c.addr).aux
    ensures var e := ExtraStep(h.busses[c.mon], env(h.calls), c.newVal, c.addr);
      BusBook(env, h0, h.(busses := h.busses[c.mon := e.ctxt], calls := h.calls + 1), all + [c], m)
  {
    assert BusBook(env, h0, h, all, m);
    assert (all + [c])[..|all|] == all;
    var x := h0.busses[m];
    var evs := Of(env, all, m);
    if c.mon == m {
      var k := Capture(env(|all|), c.(aux := []));
      Unfold(x, evs, k);
      BusStays(h.busses[m], k.env, c.newVal, c.addr);
      assert Of(env, all + [c], m) == evs + [k];
      assert k.c.(aux := c.aux) == c;
    } else {
      assert Of(env, all + [c], m) == evs;
    }
  }

  /** Capture, then decode: as long as the program lives, what is printed of each bus is exactly
      what decoding its own captures one by one gives, however the busses interleave. */
  lemma {:induction false} BussesIndependent(env: nat -> Env, h0: Hook, all: seq<GpioChange>)
    requires Hooked(CaptureFn(env), h0, all) && !HookState(CaptureFn(env), h0, all).dead && h0.calls == 0
    ensures BusBooks(env, h0, HookState(CaptureFn(env), h0, all), all)
    decreases |all|
  {
    if all != [] {
      var n := |all| - 1;
      assert all == all[..n] + [all[n]];
      HookedPrefix(CaptureFn(env), h0, all, n);
      BussesIndependent(env, h0, all[..n]);
      BooksNext(env, h0, all[..n], all[n]);
    }
  }

  lemma HookedPrefix<S>(fn: (S, GpioChange) -> (S, seq<word>), s0: S, all: seq<GpioChange>, n: nat)
    requires Hooked(fn, s0, all) && n <= |all|
    ensures Hooked(fn, s0, all[..n])
  {
    forall i | 0 <= i < n
      ensures all[..n][i].aux == fn(HookState(fn, s0, all[..n][..i]), all[..n][i].(aux := [])).1
    {
      assert all[..n][..i] == all[..i];
    }
  }

  lemma BooksNext(env: nat -> Env, h0: Hook, init: seq<GpioChange>, c: GpioChange)
    requires BusBooks(env, h0, HookState(CaptureFn(env), h0, init), init)
    requires Hooked(CaptureFn(env), h0, init + [c]) && !HookState(CaptureFn(env), h0, init + [c]).dead
    ensures BusBooks(env, h0, HookState(CaptureFn(env), h0, init + [c]), init + [c])
  {
    var fn, all := CaptureFn(env), init + [c];
    var h, h' := HookState(fn, h0, init), HookState(fn, h0, all);
    assert all[..|init|] == init && all[|init|] == c;
    assert c.aux == Captured(env, h, c.(aux := [])).1 && h' == Captured(env, h, c.(aux := [])).0;
    BusStays(h.busses[c.mon], env(h.calls), c.newVal, c.addr);
    forall m | 0 <= m < |h0.busses| ensures BusBook(env, h0, h', all, m) {
      BusNext(env, h0, h, init, c, m);
    }
  }

  // ---- Printing, batch by batch ----

  /** Every change has its three extra words and belongs to a bus. */
  ghost predicate Displayable(busses: seq<Ctxt>, all: seq<GpioChange>) {
    forall i :: 0 <= i < |all| ==> |all[i].aux| == 3 && all[i].mon < |busses|
  }

  /** What is printed for changes, each with the bus it is about. */
  function Shown(busses: seq<Ctxt>, all: seq<GpioChange>): (t: seq<(nat, Token)>)
    requires Displayable(busses, all)
    ensures |t| == |all|
  {
    if all == [] then []
    else
      var c := all[|all| - 1];
      Shown(busses, all[..|all| - 1]) + [(c.mon, Print(c, busses[c.mon].bus))]
  }

  /** What is printed about bus `m`. */
  function OfBus(t: seq<(nat, Token)>, m: nat): seq<Token> {
    if t == [] then []
    else
      var k, before := t[|t| - 1], OfBus(t[..|t| - 1], m);
      if k.0 == m then before + [k.1] else before
  }

  lemma {:induction false} OfBusShown(busses: seq<Ctxt>, all: seq<GpioChange>, m: nat)
    requires Displayable(busses, all) && m < |busses|
    ensures OfBus(Shown(busses, all), m) == Printed(busses, all, m)
    decreases |all|
  {
    if all != [] {
      var init := all[..|all| - 1];
      OfBusShown(busses, init, m);
      assert Shown(busses, all)[..|all| - 1] == Shown(busses, init);
    }
  }

  /** Printing batch by batch prints the same as printing all at once. */
  lemma {:induction false} BatchesPrinted(busses: seq<Ctxt>, a: seq<GpioChange>, b: seq<GpioChange>)
    requires Displayable(busses, a) && Displayable(busses, b)
    ensures Displayable(busses, a + b) && Shown(busses, a + b) == Shown(busses, a) + Shown(busses, b)
    decreases |b|
  {
    if b == [] {
      assert a + b == a;
    } else {
      var n := |b| - 1;
      assert (a + b)[..|a + b| - 1] == a + b[..n];
      BatchesPrinted(busses, a, b[..n]);
    }
  }

  /** What gets printed before the program gives up. */
  function Alive(t: seq<(nat, Token)>): (s: seq<(nat, Token)>)
    ensures |s| <= |t|
  {
    if t == [] then []
    else
      var s := Alive(t[..|t| - 1]);
      if |s| < |t| - 1 || t[|t| - 1].1 == Dead then s else t
  }

  lemma {:induction false} AliveConcat(a: seq<(nat, Token)>, b: seq<(nat, Token)>)
    ensures Alive(a) == a ==> Alive(a + b) == a + Alive(b)
    ensures Alive(a) != a ==> Alive(a + b) == Alive(a) && |Alive(a)| < |a|
    decreases |b|
  {
    if b == [] {
      assert a + b == a;
    } else {
      var n := |b| - 1;
      assert (a + b)[..|a + b| - 1] == a + b[..n];
      AliveConcat(a, b[..n]);
    }
  }

  /** The printing of a batch stops the program. */
  predicate Chokes(busses: seq<Ctxt>, c: seq<GpioChange>) {
    exists i :: 0 <= i < |c| && ChokesAt(busses, c[i])
  }

  predicate ChokesAt(busses: seq<Ctxt>, c: GpioChange) {
    |c.aux| == 3 && c.mon < |busses| && Print(c, busses[c.mon].bus) == Dead
  }

  lemma {:induction false} ChokesExactly(busses: seq<Ctxt>, c: seq<GpioChange>)
    requires Displayable(busses, c)
    ensures Chokes(busses, c) <==> Alive(Shown(busses, c)) != Shown(busses, c)
    decreases |c|
  {
    if c != [] {
      var n := |c| - 1;
      assert c == c[..n] + [c[n]];
      assert Shown(busses, c)[..n] == Shown(busses, c[..n]);
      ChokesExactly(busses, c[..n]);
      ChokesMore(busses, c[..n], c[n]);
    }
  }

  lemma ChokesMore(busses: seq<Ctxt>, c: seq<GpioChange>, k: GpioChange)
    ensures Chokes(busses, c + [k]) <==> Chokes(busses, c) || ChokesAt(busses, k)
  {
    var d := c + [k];
    assert d[|c|] == k;
    if Chokes(busses, c) {
      var i :| 0 <= i < |c| && ChokesAt(busses, c[i]);
      assert d[i] == c[i];
    }
  }

  /** Prints a batch; `ok` is false where the program gives up. */
  method I2cSmart(c: seq<GpioChange>, busses: seq<Ctxt>) returns (shown: seq<(nat, Token)>, ok: bool)
    requires Displayable(busses, c)
    ensures shown == Alive(Shown(busses, c)) && (ok <==> shown == Shown(busses, c))
  {
    shown, ok := [], true;
    assert c[..0] == [];
    for i := 0 to |c|
      invariant Displayable(busses, c[..i])
      invariant shown == Shown(busses, c[..i]) == Alive(Shown(busses, c[..i]))
    {
      var k := Print(c[i], busses[c[i].mon].bus);
      OneMore(busses, c, i, k);
      if k == Dead { return shown, false; }
      shown := shown + [(c[i].mon, k)];
    }
    assert c[..|c|] == c;
  }

  lemma OneMore(busses: seq<Ctxt>, c: seq<GpioChange>, i: nat, k: Token)
    requires Displayable(busses, c) && i < |c| && Displayable(busses, c[..i])
    requires k == Print(c[i], busses[c[i].mon].bus) && Alive(Shown(busses, c[..i])) == Shown(busses, c[..i])
    ensures Displayable(busses, c[..i + 1])
    ensures Shown(busses, c[..i + 1]) == Shown(busses, c[..i]) + [(c[i].mon, k)]
    ensures k != Dead ==> Alive(Shown(busses, c[..i + 1])) == Shown(busses, c[..i + 1])
    ensures k == Dead ==> Alive(Shown(busses, c)) == Shown(busses, c[..i]) && Shown(busses, c[..i]) != Shown(busses, c)
  {
    var s, t := Shown(busses, c[..i]), Shown(busses, c[..i + 1]);
    assert c[..i + 1][..i] == c[..i];
    assert t == s + [(c[i].mon, k)] && t[..i] == s;
    if k == Dead { StopsThere(busses, c, i, s, t); }
  }

  lemma StopsThere(busses: seq<Ctxt>, c: seq<GpioChange>, i: nat, s: seq<(nat, Token)>, t: seq<(nat, Token)>)
    requires Displayable(busses, c) && i < |c| && Displayable(busses, c[..i + 1]) && t == Shown(busses, c[..i + 1])
    requires |s| == i && t[..i] == s && t[i].1 == Dead && Alive(s) == s
    ensures Alive(Shown(busses, c)) == s && s != Shown(busses, c)
  {
    assert c == c[..i + 1] + c[i + 1..];
    BatchesPrinted(busses, c[..i + 1], c[i + 1..]);
    AliveConcat(t, Shown(busses, c[i + 1..]));
  }

  /** What was captured can be printed. */
  lemma {:induction false} CapturedDisplayable(mons: seq<Mon>, env: nat -> Env, h0: Hook, all: seq<GpioChange>)
    requires Hooked(CaptureFn(env), h0, all) && |h0.busses| == |mons|
    requires forall i :: 0 <= i < |all| ==> Describes(mons, all[i])
    ensures Displayable(h0.busses, all)
  {
    forall i | 0 <= i < |all| ensures |all[i].aux| == 3 && all[i].mon < |h0.busses| {
      var h, c := HookState(CaptureFn(env), h0, all[..i]), all[i].(aux := []);
      assert all[i].aux == Captured(env, h, c).1;
      if !h.dead && c.mon < |h.busses| { BusStays(h.busses[c.mon], env(h.calls), c.newVal, c.addr); }
    }
  }

  /** As long as the program lives, after any number of changes, the books hold. */
  lemma BooksAlways(env: nat -> Env, h0: Hook, all: seq<GpioChange>, n: nat)
    requires Hooked(CaptureFn(env), h0, all) && n <= |all| && h0.calls == 0
    requires !HookState(CaptureFn(env), h0, all[..n]).dead
    ensures BooksAfter(env, h0, all, n)
  {
    HookedPrefix(CaptureFn(env), h0, all, n);
    BussesIndependent(env, h0, all[..n]);
  }

  /** After the first `n` changes the program lives, and every bus has been decoded from its own. */
  ghost predicate BooksAfter(env: nat -> Env, h0: Hook, all: seq<GpioChange>, n: nat)
    requires n <= |all|
  {
    BusBooks(env, h0, HookState(CaptureFn(env), h0, all[..n]), all[..n])
  }

  /** Flattening some batches and one more. */
  lemma FlattenNext(batches: seq<seq<GpioChange>>, b: nat)
    requires b < |batches|
    ensures Flatten(batches[..b + 1]) == Flatten(batches[..b]) + batches[b]
  {
    assert batches[..b + 1][..b] == batches[..b];
  }

  lemma DisplayableParts(busses: seq<Ctxt>, a: seq<GpioChange>, b: seq<GpioChange>)
    requires Displayable(busses, a + b)
    ensures Displayable(busses, a) && Displayable(busses, b)
  {
    forall i | 0 <= i < |a| ensures |a[i].aux| == 3 && a[i].mon < |busses| {
      assert (a + b)[i] == a[i];
    }
    forall i | 0 <= i < |b| ensures |b[i].aux| == 3 && b[i].mon < |busses| {
      assert (a + b)[|a| + i] == b[i];
    }
  }

  /** A batch's changes are among all changes. */
  lemma {:induction false} BatchDisplayable(busses: seq<Ctxt>, batches: seq<seq<GpioChange>>, n: nat)
    requires n <= |batches| && Displayable(busses, Flatten(batches[..n]))
    ensures forall b :: 0 <= b < n ==> Displayable(busses, batches[b]) && Displayable(busses, Flatten(batches[..b]))
    decreases n
  {
    if n > 0 {
      FlattenNext(batches, n - 1);
      DisplayableParts(busses, Flatten(batches[..n - 1]), batches[n - 1]);
      BatchDisplayable(busses, batches, n - 1);
    }
  }

  /** The batches' printing, up to where the program gives up. */
  method PrintBatches(batches: seq<seq<GpioChange>>, busses: seq<Ctxt>) returns (printed: seq<(nat, Token)>)
    requires Displayable(busses, Flatten(batches))
    ensures printed == Alive(Shown(busses, Flatten(batches)))
  {
    assert batches[..|batches|] == batches;
    BatchDisplayable(busses, batches, |batches|);
    printed := [];
    var ok := true;
    for b := 0 to |batches|
      invariant Displayable(busses, Flatten(batches[..b]))
      invariant printed == Alive(Shown(busses, Flatten(batches[..b])))
      invariant ok <==> printed == Shown(busses, Flatten(batches[..b]))
    {
      FlattenNext(batches, b);
      BatchesPrinted(busses, Flatten(batches[..b]), batches[b]);
      AliveConcat(Shown(busses, Flatten(batches[..b])), Shown(busses, batches[b]));
      if ok {
        var shown;
        shown, ok := I2cSmart(batches[b], busses);
        printed := printed + shown;
      }
    }
  }

  /** If no batch but perhaps the last stops the program, neither does printing all but the last. */
  lemma {:induction false} AllPrinted(busses: seq<Ctxt>, batches: seq<seq<GpioChange>>)
    requires Displayable(busses, Flatten(batches)) && forall b :: 0 <= b < |batches| ==> !Chokes(busses, batches[b])
    ensures Alive(Shown(busses, Flatten(batches))) == Shown(busses, Flatten(batches))
    decreases |batches|
  {
    if batches != [] {
      var n := |batches| - 1;
      DisplayableParts(busses, Flatten(batches[..n]), batches[n]);
      AllPrinted(busses, batches[..n]);
      ChokesExactly(busses, batches[n]);
      BatchesPrinted(busses, Flatten(batches[..n]), batches[n]);
      AliveConcat(Shown(busses, Flatten(batches[..n])), Shown(busses, batches[n]));
    }
  }

  lemma LastPrinted(busses: seq<Ctxt>, batches: seq<seq<GpioChange>>)
    requires batches != [] && Displayable(busses, Flatten(batches)) && Chokes(busses, batches[|batches| - 1])
    ensures Alive(Shown(busses, Flatten(batches))) != Shown(busses, Flatten(batches))
  {
    var n := |batches| - 1;
    DisplayableParts(busses, Flatten(batches[..n]), batches[n]);
    ChokesExactly(busses, batches[n]);
    BatchesPrinted(busses, Flatten(batches[..n]), batches[n]);
    AliveConcat(Shown(busses, Flatten(batches[..n])), Shown(busses, batches[n]));
  }

  /** Where the program was stopped, if it was. */
  lemma PrintedAll(busses: seq<Ctxt>, batches: seq<seq<GpioChange>>, sent: seq<nat>, it: nat, over: bool)
    requires Displayable(busses, Flatten(batches)) && Stands(batches, sent, ChokesFn(busses), it, over)
    ensures over <==> Alive(Shown(busses, Flatten(batches))) != Shown(busses, Flatten(batches))
  {
    if over { LastPrinted(busses, batches); } else { AllPrinted(busses, batches); }
  }

  function ChokesFn(busses: seq<Ctxt>): seq<GpioChange> -> bool { (c: seq<GpioChange>) => Chokes(busses, c) }

  /** What the monitor works with here. */
  function I2cSetting(sample: (nat, nat) -> word, clock: nat -> word, env: nat -> Env, busses: seq<Ctxt>)
    : Setting<Hook>
  {
    Setting(sample, clock, CaptureFn(env), DeadFn(), ChokesFn(busses))
  }

  /** The `-i2cmon` command, for any number of iterations or until it is stopped: by the capture of a
      change, which then is the last of `all`, or by the printing of a batch. `h` is the capture
      hook's final state. Change `r` was made in iteration `at[r]`, and batch `b` printed at the end of
      iteration `sent[b]`. In the end `k` monitors of iteration `it` have been sampled. */
  method DoI2cMon(mons: seq<Mon>, sample: (nat, nat) -> word, clock: nat -> word, env: nat -> Env,
                  h0: Hook, iterations: nat)
    returns (batches: seq<seq<GpioChange>>, change: seq<GpioChange>, h: Hook, over: bool, printed: seq<(nat, Token)>,
             ghost all: seq<GpioChange>, ghost sent: seq<nat>, ghost at: seq<nat>, ghost it: nat, ghost k: nat)
    requires Different(mons) && (forall m :: m in mons ==> !m.oldValid)
    requires h0.calls == 0 && !h0.dead && |h0.busses| == |mons|
    modifies set m | m in mons
    ensures all == Flatten(batches) + change && it <= iterations && k <= |mons|
    // Every change is what the registers and the clock say, and none is missing.
    ensures Stamped(all, at, sample, clock, it, k) && forall r :: 0 <= r < |all| ==> Describes(mons, all[r])
    ensures forall j :: 0 <= j < |mons| ==> Faithful(all, sample, j, mons[j].mask, Taken(it, k, j))
    // After every change that was captured, each bus has been decoded from exactly its own ones.
    ensures h == HookState(CaptureFn(env), h0, all)
    ensures forall n :: 0 <= n <= |all| && (h.dead ==> n < |all|) ==> BooksAfter(env, h0, all, n)
    // Batches are printed exactly when due, up to where the printing stops the program.
    ensures Delivered(batches, change, sent, all, at, clock, it)
    ensures Displayable(h0.busses, Flatten(batches)) && printed == Alive(Shown(h0.busses, Flatten(batches)))
    // The program ends where it should, and only there.
    ensures h.dead ==>
      over && it < iterations && StoppedAt(all, at, it, k) && printed == Shown(h0.busses, Flatten(batches))
    ensures !h.dead ==> k == 0 && (over <==> printed != Shown(h0.busses, Flatten(batches)))
    ensures !over ==> it == iterations
  {
    batches, change, h, over, all, sent, at, it, k :=
      MonLoopFun(mons, I2cSetting(sample, clock, env, h0.busses), h0, iterations);
    CapturedDisplayable(mons, env, h0, all);
    DisplayableParts(h0.busses, Flatten(batches), change);
    printed := PrintBatches(batches, h0.busses);
    if h.dead {
      AllPrinted(h0.busses, batches);
    } else {
      PrintedAll(h0.busses, batches, sent, it, over);
    }
    RunBooks(env, h0, h, all);
  }

  function DeadFn(): Hook -> bool { (h: Hook) => h.dead }

  lemma RunBooks(env: nat -> Env, h0: Hook, h: Hook, all: seq<GpioChange>)
    requires Hooked(CaptureFn(env), h0, all) && Lived(CaptureFn(env), DeadFn(), h0, all) && h0.calls == 0
    requires h == HookState(CaptureFn(env), h0, all)
    ensures forall n :: 0 <= n <= |all| && (h.dead ==> n < |all|) ==> BooksAfter(env, h0, all, n)
  {
    forall n | 0 <= n <= |all| && (h.dead ==> n < |all|) ensures BooksAfter(env, h0, all, n) {
      if n == |all| {
        assert all[..n] == all;
      } else {
        assert !DeadFn()(HookState(CaptureFn(env), h0, all[..n]));
      }
      BooksAlways(env, h0, all, n);
    }
  }

  // ---- From the register to the screen ----

  /** The iterations in which the changes of bus `m` were made. */
  function AtOf(all: seq<GpioChange>, at: seq<nat>, m: nat): seq<nat>
    requires |at| == |all|
  {
    if all == [] then []
    else
      var n := |all| - 1;
      AtOf(all[..n], at[..n], m) + if all[n].mon == m then [at[n]] else []
  }

  /** Every capture of a bus is of a sample of its register: a value that differs from the sample
      before, in the iteration it was taken. */
  lemma {:induction false} CapturesSampled(env: nat -> Env, all: seq<GpioChange>, at: seq<nat>, m: nat,
                                           sample: (nat, nat) -> word, clock: nat -> word)
    requires |at| == |all| && forall r :: 0 <= r < |all| ==> MadeAt(all[r], at[r], sample, clock)
    ensures |AtOf(all, at, m)| == |Of(env, all, m)|
    ensures forall i :: 0 <= i < |AtOf(all, at, m)| ==>
      Of(env, all, m)[i].c.mon == m && MadeAt(Of(env, all, m)[i].c, AtOf(all, at, m)[i], sample, clock)
    decreases |all|
  {
    if all != [] {
      var n := |all| - 1;
      CapturesSampled(env, all[..n], at[..n], m, sample, clock);
    }
  }

  /** What stands on the screen for captures `evs` of bus `m`, once the changes `all` are printed. */
  lemma OnScreen(env: nat -> Env, h0: Hook, h: Hook, all: seq<GpioChange>, m: nat,
                 a: seq<Capture>, evs: seq<Capture>, b: seq<Capture>)
    requires BusBooks(env, h0, h, all) && Displayable(h0.busses, all) && m < |h0.busses|
    requires Of(env, all, m) == a + evs + b
    ensures After(h0.busses[m], a + evs + b) != Fatal
    ensures OfBus(Shown(h0.busses, all), m) == Tokens(h0.busses[m], a + evs + b)
  {
    assert BusBook(env, h0, h, all, m);
    OfBusShown(h0.busses, all, m);
  }

  /** The mask of the monitored command registers: only a change of the state field is recorded. */
  lemma StateChanges(a: word, b: word)
    ensures Seen(a, TWO32 - 1 - 0x0078_0000) == Seen(b, TWO32 - 1 - 0x0078_0000)
            <==> a / 0x8_0000 % 0x10 == b / 0x8_0000 % 0x10
  {
    StateSeen(a);
    StateSeen(b);
  }

  lemma StateSeen(v: word)
    ensures Seen(v, 0xff87_ffff) == v / 0x8_0000 % 0x10 * 0x8_0000
  {
    var v1: nat := v / 0x10;
    var v2: nat := v1 / 0x10;
    var v3: nat := v2 / 0x10;
    var v4: nat := v3 / 0x10;
    FourMasked(v, 0xff8_7fff);
    FourMasked(v1, 0xff_87ff);
    FourMasked(v2, 0xf_f87f);
    FourMasked(v3, 0xff87);
    ThreeMasked(v4, 0x1ff0);
    assert v4 / 8 == v / 0x8_0000;
    StateKept(v4 / 8);
  }

  lemma ThreeMasked(a: nat, b: nat)
    ensures AndNot(a, 8 * b + 7) == 8 * AndNot(a / 8, b)
  {
    assert AndNot(a / 2 / 2, 2 * b + 1) == 2 * AndNot(a / 2 / 2 / 2, b);
    assert AndNot(a / 2, 4 * b + 3) == 2 * AndNot(a / 2 / 2, 2 * b + 1);
  }

  lemma FourMasked(a: nat, b: nat)
    ensures AndNot(a, 0x10 * b + 0xf) == 0x10 * AndNot(a / 0x10, b)
  {
    ThreeMasked(a, 2 * b + 1);
    assert AndNot(a / 8, 2 * b + 1) == 2 * AndNot(a / 8 / 2, b);
  }

  /** Four bits below nine masked ones. */
  lemma StateKept(w: nat)
    requires w < 0x2000
    ensures AndNot(w, 0x1ff0) == w % 0x10
  {
    var w1: nat := w / 2;
    var w2: nat := w1 / 2;
    var w3: nat := w2 / 2;
    OneKept(w, 0xff8);
    OneKept(w1, 0x7fc);
    OneKept(w2, 0x3fe);
    OneKept(w3, 0x1ff);
    assert Pow2(9) == 0x200;
    AllMasked(w3 / 2, 9);
    FourDigits(w, w1, w2, w3);
  }

  lemma OneKept(a: nat, b: nat)
    ensures AndNot(a, 2 * b) == a % 2 + 2 * AndNot(a / 2, b)
  {
  }

  lemma FourDigits(w: nat, w1: nat, w2: nat, w3: nat)
    requires w1 == w / 2 && w2 == w1 / 2 && w3 == w2 / 2
    ensures w % 0x10 == w % 2 + 2 * (w1 % 2 + 2 * (w2 % 2 + 2 * (w3 % 2)))
  {
  }

  lemma {:induction false} AllMasked(a: nat, n: nat)
    requires a < Pow2(n)
    ensures AndNot(a, Pow2(n) - 1) == 0
    decreases n
  {
    if a > 0 { AllMasked(a / 2, n - 1); }
  }

  // ---- Where a read begins, by the registers alone ----

  /** The state field of a command register (bits 19 to 22) is none of those of a byte being sent or
      received: the bus is idle, or starts or stops. */
  predicate Quiet(e: Capture) { e.c.newVal / 0x8_0000 % 0x10 !in {12, 14, 15} }

  /** After such a capture no read is going on. */
  lemma QuietEnds(x: Ctxt, evs: seq<Capture>)
    requires evs != [] && After(x, evs) != Fatal
    requires evs[|evs| - 1].c.newVal / 0x8_0000 % 0x10 !in {12, 14, 15}
    ensures !After(x, evs).ctxt.rx
  {
  }

  /** The captures `a` end quietly, or there are none and the decoder is at its start. */
  ghost predicate Rests(x: Ctxt, a: seq<Capture>) { if a == [] then !x.rx else Quiet(a[|a| - 1]) }

  lemma RestsIdle(x: Ctxt, a: seq<Capture>)
    requires Rests(x, a) && After(x, a) != Fatal
    ensures !After(x, a).ctxt.rx
  {
    if a != [] { QuietEnds(x, a); }
  }

  /** The captures of one read, by the registers: receive states, and acknowledges of the three
      commands with which bytes are received; the first is a receive state with a command in `cmds`. */
  ghost predicate ReadOf(evs: seq<Capture>, cmds: set<nat>) {
    && evs != [] && evs[0].c.newVal / 0x8_0000 % 0x10 == 14 && evs[0].c.newVal % 0x400 in cmds
    && forall i :: 0 <= i < |evs| ==>
         || evs[i].c.newVal / 0x8_0000 % 0x10 == 14
         || (evs[i].c.newVal / 0x8_0000 % 0x10 == 15 && evs[i].c.newVal % 0x400 in {0x98, 0x238, 0x20})
  }

  lemma ReadOfReceives(evs: seq<Capture>, cmds: set<nat>)
    requires ReadOf(evs, cmds)
    ensures InRead(evs) && StateOf(evs[0].c.newVal) == MRX && CmdOf(evs[0].c.newVal) in cmds
  {
    forall i | 0 <= i < |evs| ensures Receives(evs[i].c) { }
  }

  /** The registers of a bus that a read consults, in the bytes of its block of 0x40: the buffer address
      at 0x24, its length at 0x28, and the receive pointer at 0x1f. */
  lemma ReadRegisters(e: Capture)
    ensures var b, m := e.c.addr - e.c.addr % 0x40, e.env.i2c;
      && DmaAddr(e) == m(b + 0x24) + 0x100 * m(b + 0x25) + 0x1_0000 * m(b + 0x26) + 0x100_0000 * m(b + 0x27)
      && DmaLen(e) == m(b + 0x28) + 0x100 * m(b + 0x29) + 0x1_0000 * m(b + 0x2a) + 0x100_0000 * m(b + 0x2b)
      && RxPtr(e.env, e.c) == m(b + 0x1f)
  {
    var b: nat, m := e.c.addr - e.c.addr % 0x40, e.env.i2c;
    assert e.c.addr / 0x40 * 0x40 == b;
    TopByte(m(b + 0x1c), m(b + 0x1d), m(b + 0x1e), m(b + 0x1f));
  }

  lemma TopByte(b0: byte, b1: byte, b2: byte, b3: byte)
    ensures Le32([b0, b1, b2, b3]) / 0x100_0000 == b3
  {
    var r: nat := (b0 as nat) + 0x100 * (b1 as nat) + 0x1_0000 * (b2 as nat);
    assert Le32([b0, b1, b2, b3]) == r + 0x100_0000 * (b3 as nat);
  }

  /** If the changes `all` were captured and printed, and in bus `m`'s captures a DMA read that fits
      stands right behind a quiet one, then among what was printed about that bus stand exactly its
      DRAM bytes; ... */
  lemma DmaOnScreen(env: nat -> Env, h0: Hook, h: Hook, all: seq<GpioChange>, m: nat,
                    a: seq<Capture>, evs: seq<Capture>, b: seq<Capture>)
    requires BusBooks(env, h0, h, all) && Displayable(h0.busses, all) && m < |h0.busses|
    requires Of(env, all, m) == a + evs + b && Rests(h0.busses[m], a)
    requires ReadOf(evs, {0x238, 0x20}) && DmaFits(evs)
    ensures var t := OfBus(Shown(h0.busses, all), m);
      |t| == |a| + |evs| + |b| && Shows(t[|a|..|a| + |evs|], evs, DmaAddr(evs[0]))
  {
    OnScreen(env, h0, h, all, m, a, evs, b);
    Segment(h0.busses[m], a, evs, b);
    RestsIdle(h0.busses[m], a);
    ReadOfReceives(evs, {0x238, 0x20});
    DmaSegment(h0.busses[m], a, evs, b);
  }

  /** ... and for a pool read exactly the bytes before its receive pointers. */
  lemma PoolOnScreen(env: nat -> Env, h0: Hook, h: Hook, all: seq<GpioChange>, m: nat,
                     a: seq<Capture>, evs: seq<Capture>, b: seq<Capture>)
    requires BusBooks(env, h0, h, all) && Displayable(h0.busses, all) && m < |h0.busses|
    requires Of(env, all, m) == a + evs + b && Rests(h0.busses[m], a)
    requires ReadOf(evs, {0x98}) && PointersFit(evs) && PoolPlaced(h0.busses[m])
    ensures var t := OfBus(Shown(h0.busses, all), m);
      |t| == |a| + |evs| + |b| && Received(t[|a|..|a| + |evs|]) == PoolBytes(evs, h0.busses[m].poolBase)
      && Dead !in t[|a|..|a| + |evs|]
  {
    OnScreen(env, h0, h, all, m, a, evs, b);
    Segment(h0.busses[m], a, evs, b);
    RestsIdle(h0.busses[m], a);
    ReadOfReceives(evs, {0x98});
    PoolSegment(h0.busses[m], a, evs, b);
  }

  /** What is printed of a capture that receives nothing, wherever it stands: a byte sent for the three
      commands with which bytes are sent, a line end when the bus is idle, the raw change for commands
      that are not decoded, and nothing in the other states. */
  lemma OthersOnScreen(env: nat -> Env, h0: Hook, h: Hook, all: seq<GpioChange>, m: nat, i: nat)
    requires BusBooks(env, h0, h, all) && Displayable(h0.busses, all) && m < |h0.busses|
    requires i < |Of(env, all, m)|
    ensures var t, e := OfBus(Shown(h0.busses, all), m), Of(env, all, m)[i];
      && |t| == |Of(env, all, m)|
      && var state, cmd := e.c.newVal / 0x8_0000 % 0x10, e.c.newVal % 0x400;
      && (state == 12 && cmd in {0x2, 0x102, 0x122} ==>
           t[i] == T(h0.busses[m].bus, e.env.i2c(e.c.addr / 0x40 * 0x40 + 0x20)))
      && (state == 12 && cmd !in {0x2, 0x102, 0x122} ==> t[i].Raw?)
      && (state == 15 && cmd !in {0x98, 0x238, 0x20} ==> t[i].Raw?)
      && (state == 0 ==> t[i] == NewLine)
      && (state !in {0, 12, 15} ==> t[i] == Silent)
  {
    assert BusBook(env, h0, h, all, m);
    OfBusShown(h0.busses, all, m);
    TokenAt(h0.busses[m], Of(env, all, m), i);
  }

  lemma {:induction false} TokenAt(x: Ctxt, evs: seq<Capture>, i: nat)
    requires After(x, evs) != Fatal && i < |evs|
    ensures After(x, evs[..i]) != Fatal && After(x, evs[..i + 1]) != Fatal
    ensures After(x, evs[..i]).ctxt.bus == x.bus
    ensures OtherToken(x.bus, evs[i], Tokens(x, evs)[i])
    decreases |evs|
  {
    var n := |evs| - 1;
    assert evs[..n + 1] == evs;
    if i < n {
      TokenAt(x, evs[..n], i);
      assert evs[..n][..i] == evs[..i] && evs[..n][..i + 1] == evs[..i + 1];
      assert Tokens(x, evs)[i] == Tokens(x, evs[..n])[i];
    } else {
      BusKept(x, evs[..n]);
      LastToken(After(x, evs[..n]).ctxt, evs[n]);
    }
  }

  lemma {:induction false} BusKept(x: Ctxt, evs: seq<Capture>)
    requires After(x, evs) != Fatal
    ensures After(x, evs).ctxt.bus == x.bus
    decreases |evs|
  {
    if evs != [] { BusKept(x, evs[..|evs| - 1]); }
  }

  ghost predicate OtherToken(bus: nat, e: Capture, k: Token) {
    var state, cmd := e.c.newVal / 0x8_0000 % 0x10, e.c.newVal % 0x400;
    && (state == 12 && cmd in {0x2, 0x102, 0x122} ==> k == T(bus, e.env.i2c(e.c.addr / 0x40 * 0x40 + 0x20)))
    && (state == 12 && cmd !in {0x2, 0x102, 0x122} ==> k.Raw?)
    && (state == 15 && cmd !in {0x98, 0x238, 0x20} ==> k.Raw?)
    && (state == 0 ==> k == NewLine)
    && (state !in {0, 12, 15} ==> k == Silent)
  }

  lemma LastToken(y: Ctxt, e: Capture)
    requires ExtraStep(y, e.env, e.c.newVal, e.c.addr) != Fatal
    ensures var next := ExtraStep(y, e.env, e.c.newVal, e.c.addr);
      |next.aux| == 3 && OtherToken(y.bus, e, Print(e.c.(aux := next.aux), y.bus))
  {
    var at := e.c.addr / 0x40 * 0x40 + 0x20;
    LowestByte(e.env.i2c(at), e.env.i2c(at + 1), e.env.i2c(at + 2), e.env.i2c(at + 3));
  }

  lemma LowestByte(b0: byte, b1: byte, b2: byte, b3: byte)
    ensures Le32([b0, b1, b2, b3]) % 0x100 == b0
  {
    var r: nat := (b1 as nat) + 0x100 * (b2 as nat) + 0x1_0000 * (b3 as nat);
    assert Le32([b0, b1, b2, b3]) == b0 + 0x100 * r;
  }
}
