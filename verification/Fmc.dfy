/** The flash programmer proper (ast/spi.go): SPI frames, and the erase, program and read
    operations made of them, all carried by windowed accesses. */
module Fmc {
  import opened Bits
  import opened Outcomes
  import opened NorFlash
  import opened NorFrames
  import opened BmcBus
  import opened P2a

  datatype SpiChip = SpiChip(name: string, size: nat, eraseSize: nat, op4b: bool, mx3b4b: bool)

  /** The table of known chips. */
  function SpiDb(id: nat): Option<SpiChip> {
    if id == 0xc22019 then Some(SpiChip("mx25l25635f", 0x200_0000, 0x1_0000, true, true))
    else if id == 0xef4019 then Some(SpiChip("w25q256", 0x200_0000, 0x1_0000, true, false))
    else if id == 0x20ba20 then Some(SpiChip("n25q512a", 0x400_0000, 0x1_0000, true, true))
    else if id == 0xc2201a then Some(SpiChip("mx66l51235l", 0x400_0000, 0x1_0000, true, true))
    else if id == 0x010220 then Some(SpiChip("s25fl512s", 0x400_0000, 0x4_0000, true, false))
    else None
  }

  /** A word written to the window goes out as its four bytes. */
  lemma OutsWord(out: seq<byte>, x: nat)
    requires x + 4 <= |out|
    ensures Outs(out[..x + 4]) == Outs(out[..x]) + Outs(LeBytes(Le32(out[x..x + 4])))
  {
    LeRoundTrip(out[x..x + 4]);
  }

  /** A 4-byte step through the flash window never leaves a 64 KiB page half way. */
  lemma WordInPage(x: nat)
    requires x % 4 == 0
    ensures (FMC_MEM + x) % PAGE + 4 <= PAGE
  {
    assert (FMC_MEM + x) % PAGE % 4 == 0;
  }

  /** `s` is what the window shows while the chip is not selected. */
  ghost predicate AllFetched(b: Bmc, s: seq<byte>) { forall i :: 0 <= i < |s| ==> s[i] == b.fetch(i) }

  /** A word of the window while the chip is not selected, ... */
  lemma WindowFetched(b: Bmc, b': Bmc, x: nat, val: word)
    requires x < FMC_WINDOW && WellFormed(b.nor) && !Selected(b) && (b', val) == BusStep(b, R32(FMC_MEM + x))
    ensures b' == b && LeBytes(val) == Fetched(b, x)
  {
    LeRoundTrip(Fetched(b, x));
  }

  /** ... and in a frame. */
  lemma WindowRead(b: Bmc, b': Bmc, n: Nor, out: seq<byte>, x: nat, val: word)
    requires x < FMC_WINDOW && WellFormed(n) && Selected(b) && b.nor == n && b.wire == FrameOf(n, out, x)
    requires (b', val) == BusStep(b, R32(FMC_MEM + x))
    ensures b' == b.(wire := FrameOf(n, out, x + 4))
    ensures Replies(n, out, x + 4) == Replies(n, out, x) + LeBytes(val)
  {
    WordRead(n, out, x, val);
  }

  lemma FetchedOn(b: Bmc, s: seq<byte>, w: seq<byte>)
    requires AllFetched(b, s) && w == Fetched(b, |s|)
    ensures AllFetched(b, s + w)
  {
  }

  /** `binary.LittleEndian.PutUint32(buf[x:], val)`. */
  method PutWord(buf: array<byte>, x: nat, val: word)
    requires x + 4 <= buf.Length
    modifies buf
    ensures buf[..x + 4] == old(buf[..x]) + LeBytes(val)
  {
    var bytes := LeBytes(val);
    buf[x], buf[x + 1], buf[x + 2], buf[x + 3] := bytes[0], bytes[1], bytes[2], bytes[3];
  }

  class Fmc {
    const mem: AstMem
    const reg: AstMem
    const spiMode: int
    const ce0CtlSlow: word := 0x300
    const ce0CtlFast: word := 0x600
    var id: word
    var chip: SpiChip
    var read: byte
    var program: byte
    var erase: byte

    constructor (mem: AstMem, reg: AstMem, spiMode: int)
      ensures this.mem == mem && this.reg == reg && this.spiMode == spiMode
    {
      this.mem, this.reg, this.spiMode := mem, reg, spiMode;
      id, chip, read, program, erase := 0, SpiChip("", 0, 0, false, false), 0, 0, 0;
    }

    /** The two regions share a working window. */
    ghost predicate Linked()
      reads mem.p2a, mem.p2a.bar1
    {
      && reg.p2a == mem.p2a
      && mem.start == FMC_MEM && mem.size == FMC_WINDOW
      && reg.start == FMC_ADDR && reg.size == 4096
      && mem.p2a.Coherent()
    }

    /** Writes are enabled. */
    ghost predicate Wired()
      reads mem.p2a, mem.p2a.bar1
    {
      Linked() && !mem.p2a.noWrite
    }

    /** Writes are not enabled, and the bus stays as it was. */
    ghost predicate Dry(b: Bmc)
      reads mem.p2a, mem.p2a.bar1
    {
      Linked() && mem.p2a.noWrite && Bus() == b && !Selected(b)
    }

    ghost function Bus(): Bmc
      reads mem.p2a.bar1
    {
      mem.p2a.bar1.bmc
    }

    ghost function Nor(): Nor
      reads mem.p2a.bar1
    {
      mem.p2a.bar1.bmc.nor
    }

    /** Between frames: the window works and the chip is deselected. */
    ghost predicate Valid()
      reads mem.p2a, mem.p2a.bar1
    {
      Wired() && !Selected(Bus())
    }

    function Sel(cmd: byte): word {
      if cmd == FREAD || cmd == FREAD4B then ce0CtlFast else ce0CtlSlow
    }

    /** In a frame: the chip is selected, and `wire` has been clocked since. */
    ghost predicate InFrame(n: Nor, wire: seq<Wire>)
      reads mem.p2a, mem.p2a.bar1
    {
      Wired() && Selected(Bus()) && Nor() == n && Bus().wire == wire
    }

    /** Nothing of the bus but the flash controller's frame state has changed. */
    twostate predicate OnlyFrame()
      reads mem.p2a, mem.p2a.bar1
    {
      Bus().ctl == old(Bus().ctl) && Bus().ram == old(Bus().ram)
    }

    /** Chip select goes low (3) or high (7); going high ends the frame. */
    method SelectChip(cmd: byte, mode: word)
      requires Linked() && mode in {0x0003, 0x0007}
      requires if mem.p2a.noWrite then Dry(Bus()) else mode == 0x0003 <==> !Selected(Bus())
      modifies mem.p2a, mem.p2a.bar1
      ensures mem.p2a.noWrite ==> Dry(old(Bus()))
      ensures !mem.p2a.noWrite ==> OnlyFrame()
      ensures !mem.p2a.noWrite && mode == 0x0003 ==> InFrame(old(Nor()), [])
      ensures !mem.p2a.noWrite && mode == 0x0007 ==> Valid() && Nor() == Commit(old(Nor()), old(Bus().wire))
      // Fast reads are clocked differently.
      ensures !mem.p2a.noWrite ==> Bus().ce0ctl == mode + if cmd in {0x0b, 0x0c} then 0x600 else 0x300
    {
      var _ := reg.Write32(FMC_CE0CTL, Sel(cmd) + mode);
    }

    /** The first loops of `spiXfer`: `len(out) % 4` single bytes, then whole words. */
    method SendBytes(out: seq<byte>, count: nat)
      requires count == |out| % 4 && (Dry(Bus()) || InFrame(Nor(), []))
      modifies mem.p2a, mem.p2a.bar1
      ensures if mem.p2a.noWrite then Dry(old(Bus())) else InFrame(old(Nor()), Outs(out[..count])) && OnlyFrame()
    {
      ghost var n, b := Nor(), Bus();
      for x := 0 to count
        invariant if mem.p2a.noWrite then Dry(b) else InFrame(n, Outs(out[..x])) && OnlyFrame()
      {
        assert Outs(out[..x + 1]) == Outs(out[..x]) + Outs([out[x]]);
        var _ := mem.Write8(0, out[x]);
      }
    }

    method SendWords(out: seq<byte>, first: nat)
      requires first == |out| % 4 && (Dry(Bus()) || InFrame(Nor(), Outs(out[..first])))
      modifies mem.p2a, mem.p2a.bar1
      ensures if mem.p2a.noWrite then Dry(old(Bus())) else InFrame(old(Nor()), Outs(out)) && OnlyFrame()
    {
      ghost var n, b := Nor(), Bus();
      var x := first;
      while x < |out|
        invariant x <= |out| && (|out| - x) % 4 == 0
        invariant if mem.p2a.noWrite then Dry(b) else InFrame(n, Outs(out[..x])) && OnlyFrame()
      {
        OutsWord(out, x);
        var _ := mem.Write32(0, Le32(out[x..x + 4]));
        x := x + 4;
      }
      assert out[..x] == out;
    }

    method ReadWord(x: nat, ghost n: Nor, ghost out: seq<byte>) returns (ok: bool, val: word)
      requires x % 4 == 0 && WellFormed(n) && (Dry(Bus()) || InFrame(n, FrameOf(n, out, x)))
      modifies mem.p2a, mem.p2a.bar1
      ensures ok <==> x < FMC_WINDOW
      ensures mem.p2a.noWrite ==> Dry(old(Bus())) && (ok ==> LeBytes(val) == Fetched(Bus(), x))
      ensures !mem.p2a.noWrite ==> OnlyFrame() && Wired() && (!ok ==> Nor() == n)
      ensures !mem.p2a.noWrite && ok ==> InFrame(n, FrameOf(n, out, x + 4))
      ensures !mem.p2a.noWrite && ok ==> Replies(n, out, x + 4) == Replies(n, out, x) + LeBytes(val)
    {
      WordInPage(x);
      ghost var b := Bus();
      ok, val := mem.Read32(x);
      if ok {
        assert mem.At(x) == FMC_MEM + x && (Bus(), val) == BusStep(b, R32(FMC_MEM + x));
        if mem.p2a.noWrite { WindowFetched(b, Bus(), x, val); } else { WindowRead(b, Bus(), n, out, x, val); }
      }
    }

    /** The last loop of `spiXfer`. `panicked`: the Go code panics, either out of the window's bounds
        or storing a word into fewer than four bytes. */
    method Receive(buf: array<byte>, ghost out: seq<byte>) returns (panicked: bool)
      requires Dry(Bus()) || InFrame(Nor(), Outs(out))
      modifies mem.p2a, mem.p2a.bar1, buf
      ensures panicked <==> !(buf.Length % 4 == 0 && buf.Length <= FMC_WINDOW)
      ensures mem.p2a.noWrite ==> Dry(old(Bus())) && (!panicked ==> AllFetched(Bus(), buf[..]))
      ensures !mem.p2a.noWrite ==> OnlyFrame() && Wired() && (panicked ==> Nor() == old(Nor()))
      ensures !mem.p2a.noWrite && !panicked ==> InFrame(old(Nor()), FrameOf(old(Nor()), out, buf.Length))
      ensures !mem.p2a.noWrite && !panicked ==> buf[..] == Replies(old(Nor()), out, buf.Length)
    {
      ghost var n, b := Nor(), Bus();
      var x := 0;
      while x < buf.Length
        invariant x <= buf.Length && x % 4 == 0 && x <= FMC_WINDOW
        invariant if mem.p2a.noWrite then Dry(b) && AllFetched(b, buf[..x])
                  else InFrame(n, FrameOf(n, out, x)) && OnlyFrame() && buf[..x] == Replies(n, out, x)
      {
        var ok, val := ReadWord(x, n, out);
        if !ok { return true; }
        if buf.Length - x < 4 { return true; }
        ghost var got := buf[..x];
        PutWord(buf, x, val);
        if mem.p2a.noWrite { FetchedOn(b, got, LeBytes(val)); }
        x := x + 4;
      }
      assert buf[..] == buf[..x];
      panicked := false;
    }

    /** One chip-select frame: `out` is sent, `inSize` bytes are read. */
    method SpiXfer(out: seq<byte>, inSize: nat) returns (r: Outcome<seq<byte>>)
      requires Linked() && !Selected(Bus()) && |out| > 0
      modifies mem.p2a, mem.p2a.bar1
      ensures !mem.p2a.noWrite ==> Wired() && OnlyFrame()
      ensures !mem.p2a.noWrite && inSize % 4 == 0 && inSize <= FMC_WINDOW ==>
        && Valid()
        && r == Done(Replies(old(Nor()), out, inSize))
        && Nor() == Commit(old(Nor()), FrameOf(old(Nor()), out, inSize))
        && Bus().ce0ctl == if out[0] in {0x0b, 0x0c} then 0x607 else 0x307
      ensures !(inSize % 4 == 0 && inSize <= FMC_WINDOW) ==> r == Panic && Nor() == old(Nor())
      // Without writes nothing happens, and what is read is what the controller fetches.
      ensures mem.p2a.noWrite ==> Dry(old(Bus()))
      ensures mem.p2a.noWrite && inSize % 4 == 0 && inSize <= FMC_WINDOW ==>
        r.Done? && |r.value| == inSize && AllFetched(Bus(), r.value)
    {
      var buf := new byte[inSize];
      SelectChip(out[0], 0x0003);
      assert Outs(out[..0]) == [];
      SendBytes(out, |out| % 4);
      SendWords(out, |out| % 4);
      var panicked := Receive(buf, out);
      if panicked { return Panic; }
      SelectChip(out[0], 0x0007);
      r := Done(buf[..]);
    }

    /** The opened programmer between operations: a known part, its 4-byte commands, and the
        chip at rest. */
    ghost predicate Open()
      reads this, mem.p2a, mem.p2a.bar1
    {
      && Valid() && Genuine(Nor()) && AtRest(Nor())
      && id == Nor().id && SpiDb(id) == Some(chip)
      && read == FREAD4B && program == PPROGRAM4B && erase == ERASE4B
    }

    /** A command with an address. */
    method SpiXferAddr(cmd: byte, off: word, extra: seq<byte>, inSize: nat)
      returns (r: Outcome<seq<byte>>)
      requires Valid()
      modifies mem.p2a, mem.p2a.bar1
      ensures Wired() && OnlyFrame()
      ensures r.Fatal? <==> Header(spiMode, cmd, off) == None
      ensures r.Panic? <==> !r.Fatal? && !(inSize % 4 == 0 && inSize <= FMC_WINDOW)
      ensures !r.Done? ==> Nor() == old(Nor())
      ensures r.Done? ==>
        && Valid()
        && var h := Header(spiMode, cmd, off).value;
        && var wire := FrameOf(old(Nor()), h + extra, inSize);
        && Carries(wire, h, off, extra, inSize) && h[0] == cmd
        && r.value == Replies(old(Nor()), h + extra, inSize)
        && Nor() == Commit(old(Nor()), wire)
    {
      var out: seq<byte>;
      if spiMode == 4 || cmd == FREAD4B || cmd == PPROGRAM4B || cmd == ERASE4B {
        out := [cmd] + BeBytes(off) + extra;
      } else if spiMode == 3 && (cmd == FREAD || cmd == PPROGRAM || cmd == ERASE) {
        if off >= 0x100_0000 { return Fatal("spiXferAddr3B"); }
        out := [cmd] + BeBytes(off)[1..] + extra;
      } else {
        return Fatal("Unknown addr size");
      }
      FrameCarries(Nor(), spiMode, cmd, off, extra, inSize);
      r := SpiXfer(out, inSize);
    }

    method SpiRead(off: nat, size: nat) returns (r: Outcome<seq<byte>>)
      requires Open()
      modifies mem.p2a, mem.p2a.bar1
      ensures r == Panic || r.Done?
      ensures r.Done? <==> size % 4 == 0 && size <= FMC_WINDOW
      ensures r == Panic ==> Nor() == old(Nor())
      ensures r.Done? ==> Open() && |r.value| == size && QuietExtension(old(Nor()).log, Nor().log)
      ensures r.Done? ==> Nor() == old(Nor()).(log := Nor().log)
      ensures r.Done? ==> forall i :: 0 <= i < size ==>
        r.value[i] == Nor().cells[Wrap(U32(off) + i, |Nor().cells|)]
    {
      ReadFrame(Nor(), spiMode, read, U32(off), size);
      r := SpiXferAddr(read, U32(off), [0], size);
      if r.Done? {
        NoPrograms(old(Nor()).log, Nor().log);
      }
    }

    method SpiStatus() returns (s: byte)
      requires Linked() && !Selected(Bus())
      modifies mem.p2a, mem.p2a.bar1
      ensures !mem.p2a.noWrite ==>
        && Valid() && OnlyFrame() && s == StatusByte(old(Nor()))
        && Polled(old(Nor()), Nor())
        && Nor().busy == if old(Nor()).busy > 0 then old(Nor()).busy - 1 else 0
      ensures mem.p2a.noWrite ==> Dry(old(Bus())) && s == Bus().fetch(0)
    {
      StatusFrame(Nor());
      FramePrefix(Nor(), [STATUS], 4);
      var buf := SpiXfer([STATUS], 4);
      if !mem.p2a.noWrite { NoPrograms(old(Nor()).log, Nor().log); }
      s := buf.value[0];
    }

    /** Polls until the busy bit is clear. The polling loop declares its own `s`, so what is
        returned is the outer variable, which stays 0. */
    method SpiWait() returns (s: byte)
      requires Valid()
      modifies mem.p2a, mem.p2a.bar1
      ensures s == 0 && Valid() && OnlyFrame()
      ensures Polled(old(Nor()), Nor()) && Nor().busy == 0
    {
      s := 0;
      ghost var n := Nor();
      var inner := SpiStatus();
      while inner % 2 != 0
        invariant Valid() && OnlyFrame() && Polled(n, Nor())
        invariant inner % 2 == 0 ==> Nor().busy == 0
        decreases Nor().busy + inner % 2
      {
        ghost var m := Nor();
        inner := SpiStatus();
        PollsCompose(n, m, Nor());
      }
    }

    /** A one-byte command without reply. */
    method SendCommand(cmd: byte)
      requires Valid() && Nor().busy == 0 && cmd in {WREN, WRDI}
      modifies mem.p2a, mem.p2a.bar1
      ensures Valid() && OnlyFrame()
      ensures Nor() == old(Nor()).(wel := cmd == WREN, log := Nor().log)
      ensures QuietExtension(old(Nor()).log, Nor().log)
    {
      CommandFrame(Nor(), cmd);
      var _ := SpiXfer([cmd], 0);
      NoPrograms(old(Nor()).log, Nor().log);
    }

    method WriteEnable()
      requires Valid() && Nor().busy == 0
      modifies mem.p2a, mem.p2a.bar1
      ensures Valid() && OnlyFrame()
      ensures Nor() == old(Nor()).(wel := true, log := Nor().log)
      ensures QuietExtension(old(Nor()).log, Nor().log)
    {
      SendCommand(0x06);
    }

    method WriteDisable()
      requires Valid() && Nor().busy == 0
      modifies mem.p2a, mem.p2a.bar1
      ensures Valid() && OnlyFrame()
      ensures Nor() == old(Nor()).(wel := false, log := Nor().log)
      ensures QuietExtension(old(Nor()).log, Nor().log)
    {
      SendCommand(0x04);
    }

    /** Switches the chip to 4-byte addressing; false where the Go code gives up. */
    method Spi4B() returns (ok: bool)
      requires Valid() && Nor().busy == 0
      modifies mem.p2a, mem.p2a.bar1
      ensures ok <==> chip.mx3b4b || id == 0x010220
      ensures Valid() && OnlyFrame()
      ensures Nor() == old(Nor()).(addr4 := ok || old(Nor()).addr4, log := Nor().log)
      ensures SafeExtension(old(Nor()).log, Nor().log)
    {
      if chip.mx3b4b {
        SafeFrame(Nor(), [0xB7], 0);
        var _ := SpiXfer([0xB7], 0);
      } else if id == 0x010220 {
        SafeFrame(Nor(), [0x17, 0x80], 0);
        var _ := SpiXfer([0x17, 0x80], 0);
      } else {
        return false;
      }
      ok := true;
    }

    method Spi3B() returns (ok: bool)
      requires Valid() && Nor().busy == 0
      modifies mem.p2a, mem.p2a.bar1
      ensures ok <==> chip.mx3b4b || id == 0x010220
      ensures Valid() && OnlyFrame()
      ensures Nor() == old(Nor()).(addr4 := !ok && old(Nor()).addr4, log := Nor().log)
      ensures SafeExtension(old(Nor()).log, Nor().log)
    {
      if chip.mx3b4b {
        SafeFrame(Nor(), [0xE9], 0);
        var _ := SpiXfer([0xE9], 0);
      } else if id == 0x010220 {
        SafeFrame(Nor(), [0x17, 0x00], 0);
        var _ := SpiXfer([0x17, 0x00], 0);
      } else {
        return false;
      }
      ok := true;
    }

    /** Reads SPI-ID. */
    method SpiId() returns (v: nat)
      requires Linked() && !Selected(Bus())
      modifies mem.p2a, mem.p2a.bar1
      ensures !mem.p2a.noWrite ==>
        && Valid() && OnlyFrame() && Nor() == old(Nor()).(log := Nor().log)
        && v == (if old(Nor()).busy > 0 then 0xff_ffff else Nor().id)
      ensures old(Nor()).busy == 0 ==> SafeExtension(old(Nor()).log, Nor().log)
      ensures mem.p2a.noWrite ==> Dry(old(Bus())) && v / 0x1_0000 == Bus().fetch(0)
    {
      if Nor().busy > 0 { BusyIdFrame(Nor()); } else { IdFrame(Nor()); }
      if Nor().busy == 0 { SafeFrame(Nor(), [0x9f], 4); }
      var buf := SpiXfer([0x9f], 4);
      v := 0x1_0000 * (buf.value[0] as nat) + 0x100 * (buf.value[1] as nat) + buf.value[2];
    }

    method ReadConfig(cmd: byte) returns (v: byte)
      requires Valid() && Nor().busy == 0 && cmd in {RDCR, BRRD, RFSR}
      modifies mem.p2a, mem.p2a.bar1
      ensures Valid() && OnlyFrame() && Nor() == old(Nor()).(log := Nor().log)
      ensures Mode4BMask(Nor().id, cmd) != 0 ==>
        (And(v, Mode4BMask(Nor().id, cmd)) != 0 <==> Nor().addr4)
      ensures SafeExtension(old(Nor()).log, Nor().log)
    {
      if Mode4BMask(Nor().id, cmd) != 0 { ConfigFrame(Nor(), cmd); }
      SafeFrame(Nor(), [cmd], 4);
      FramePrefix(Nor(), [cmd], 4);
      var buf := SpiXfer([cmd], 4);
      v := buf.value[0];
    }

    /** Asks the chip for its address mode. */
    method Is4BMode() returns (known: bool, b: bool)
      requires Valid() && Nor().busy == 0 && id == Nor().id && SpiDb(id) == Some(chip)
      modifies mem.p2a, mem.p2a.bar1
      ensures known && b == Nor().addr4
      ensures Valid() && OnlyFrame() && Nor() == old(Nor()).(log := Nor().log)
      ensures SafeExtension(old(Nor()).log, Nor().log)
    {
      var v: byte;
      known := true;
      if id == 0x20ba20 {
        v := ReadConfig(RFSR);
        b := And(v, 0x01) != 0;
      } else if id == 0x010220 {
        v := ReadConfig(BRRD);
        b := And(v, 0x80) != 0;
      } else if id == 0xef4019 {
        v := ReadConfig(RDCR);
        b := And(v, 0x1) != 0;
      } else if chip.mx3b4b {
        v := ReadConfig(RDCR);
        b := And(v, 0x20) != 0;
      } else {
        known, b := false, false;
      }
    }

    /** First part of `FmcNew`: the identifier, the table entry and the status register. */
    method Identify() returns (ok: bool)
      requires Linked() && !Selected(Bus())
      modifies `id, `chip, mem.p2a, mem.p2a.bar1
      ensures ok <==> !mem.p2a.noWrite && old(Nor()).busy == 0 && SpiDb(Nor().id).Some? && Nor().srHigh in {0, 16}
      ensures !mem.p2a.noWrite ==> Valid() && OnlyFrame()
      ensures mem.p2a.noWrite ==> Dry(old(Bus()))
      ensures Nor() == old(Nor()).(busy := Nor().busy, wel := Nor().wel, log := Nor().log)
      ensures ok ==> AtRest(Nor()) && id == Nor().id && SpiDb(id) == Some(chip)
      ensures old(Nor()).busy == 0 ==> SafeExtension(old(Nor()).log, Nor().log)
    {
      id := SpiId();
      if SpiDb(id) == None { return false; }
      chip := SpiDb(id).value;
      ok := CheckStatus();
    }

    /** The status register may show the write-enable latch, which is then cleared, and bit 6. */
    method CheckStatus() returns (ok: bool)
      requires Linked() && !Selected(Bus())
      requires mem.p2a.noWrite ==> SpiDb(id).Some? && id / 0x1_0000 == Bus().fetch(0)
      modifies mem.p2a, mem.p2a.bar1
      ensures ok <==> !mem.p2a.noWrite && old(Nor()).busy == 0 && old(Nor()).srHigh in {0, 16}
      ensures if mem.p2a.noWrite then Dry(old(Bus())) else Valid() && OnlyFrame()
      ensures Nor() == old(Nor()).(busy := Nor().busy, wel := Nor().wel, log := Nor().log)
      ensures ok ==> AtRest(Nor())
      ensures old(Nor()).busy == 0 ==> SafeExtension(old(Nor()).log, Nor().log)
    {
      StatusBits(Nor());
      var status := SpiStatus();
      var stat := AndNot(status, 0x40);
      if mem.p2a.noWrite { SameByteRefused(id, status); }
      if AndNot(stat, 2) != 0 { return false; }
      if And(stat, 2) != 0 {
        WriteDisable();
      }
      ok := true;
    }

    method WriteCtl(val: word)
      requires Valid()
      modifies mem.p2a, mem.p2a.bar1
      ensures Valid() && Nor() == old(Nor()) && Bus().ctl == val
    {
      var _ := reg.Write32(0x04, val);
    }

    /** Second part: the address mode asked for on the command line. */
    method SetMode() returns (ok: bool)
      requires Valid() && Nor().busy == 0 && spiMode != 0
      modifies mem.p2a, mem.p2a.bar1
      ensures ok <==> spiMode in {3, 4} && (chip.mx3b4b || id == 0x010220)
      ensures Valid()
      ensures Nor() == old(Nor()).(addr4 := Nor().addr4, log := Nor().log)
      ensures ok ==> Nor().addr4 == (spiMode == 4) && Bus().ctl == if spiMode == 4 then 0x701 else 0x700
      ensures SafeExtension(old(Nor()).log, Nor().log)
    {
      if spiMode == 4 {
        ok := Spi4B();
        if ok { WriteCtl(0x701); }
      } else if spiMode == 3 {
        ok := Spi3B();
        if ok { WriteCtl(0x700); }
      } else {
        return false;
      }
    }

    /** Third part: controller and chip agree on the address mode. */
    method CheckMode() returns (ok: bool)
      requires Valid() && Nor().busy == 0 && id == Nor().id && SpiDb(id) == Some(chip)
      modifies mem.p2a, mem.p2a.bar1
      ensures ok <==> (old(Bus()).ctl % 2 != 0) == Nor().addr4
      ensures Valid() && Nor() == old(Nor()).(log := Nor().log) && Bus().ctl == old(Bus().ctl)
      ensures SafeExtension(old(Nor()).log, Nor().log)
    {
      var _, ctl := reg.Read32(0x04);
      var astIs4B := ctl % 2 != 0;
      var known, is4B := Is4BMode();
      ok := known && astIs4B == is4B;
    }

    /** Last part: the command set of the part. */
    method ChooseCommands()
      modifies `read, `program, `erase
      ensures chip.op4b ==> read == FREAD4B && program == PPROGRAM4B && erase == ERASE4B
      ensures !chip.op4b ==> read == FREAD && program == PPROGRAM && erase == ERASE
    {
      if chip.op4b {
        read, program, erase := FREAD4B, PPROGRAM4B, ERASE4B;
      } else {
        read, program, erase := FREAD, PPROGRAM, ERASE;
      }
    }

    /** The whole of `FmcNew` on the new programmer. */
    method Start() returns (r: Outcome<()>)
      requires Linked() && !Selected(Bus()) && Genuine(Nor())
      modifies `id, `chip, `read, `program, `erase, mem.p2a, mem.p2a.bar1
      ensures mem.p2a.Coherent() && !r.Panic?
      ensures r.Done? <==> !mem.p2a.noWrite && Recognised(old(Bus()), spiMode)
      ensures r.Done? ==> Open()
      ensures r.Done? && spiMode != 0 ==>
        Nor().addr4 == (spiMode == 4) && Bus().ctl == if spiMode == 4 then 0x701 else 0x700
      ensures spiMode == 0 ==> Nor().addr4 == old(Nor()).addr4 && Bus().ctl == old(Bus()).ctl
      ensures mem.p2a.noWrite ==> Bus() == old(Bus())
      ensures Nor() == old(Nor()).(busy := Nor().busy, wel := Nor().wel, addr4 := Nor().addr4, log := Nor().log)
      ensures old(Nor()).busy == 0 ==> SafeExtension(old(Nor()).log, Nor().log)
    {
      var ok := Identify();
      if !ok { return Fatal("SpiId or SpiStatus"); }
      if spiMode != 0 {
        ok := SetMode();
        if !ok { return Fatal("spiMode"); }
      }
      ok := CheckMode();
      if !ok { return Fatal("astIs4B != fmc.is4B"); }
      ChooseCommands();
      r := Done(());
    }

    /** Erases the block that holds `off`; the chip is at rest again afterwards. Here and below
        `ok` is false where the Go code calls `log.Fatalf`. */
    method EraseBlock(off: nat) returns (ok: bool)
      requires Open()
      modifies mem.p2a, mem.p2a.bar1
      ensures ok && Open() && SamePart(old(Nor()), Nor())
      ensures QuietExtension(old(Nor()).log, Nor().log)
      ensures Nor().ops == old(Nor()).ops + 1
      ensures Nor().cells == StartOp(old(Nor()), ErasedCells(old(Nor()).cells,
        Wrap(U32(off), |old(Nor()).cells|), old(Nor()).eraseSize)).cells
    {
      WriteEnable();
      ghost var n := Nor();
      EraseFrame(n, spiMode, erase, U32(off));
      var x := SpiXferAddr(erase, U32(off), [], 0);
      assert Header(spiMode, erase, U32(off)).value + [] == Header(spiMode, erase, U32(off)).value;
      NoPrograms(n.log, Nor().log);
      var status := SpiWait();
      if status != 0 { return false; }
      ok := true;
    }

    /** One page program: write enable, the program frame, and the wait. */
    method ProgramPage(off: nat, data: seq<byte>) returns (ok: bool)
      requires Open() && |data| > 0
      modifies mem.p2a, mem.p2a.bar1
      ensures ok && Open() && Nor().ops == old(Nor()).ops + 1
      ensures Programmed(old(Nor()), Nor(), off, data)
    {
      WriteEnable();
      ghost var n := Nor();
      ProgramFrame(n, spiMode, program, U32(off), data);
      var x := SpiXferAddr(program, U32(off), data, 0);
      ProgramLogged(n.log, Nor().log[|n.log|], U32(off), data);
      ghost var m := Nor();
      var status := SpiWait();
      ProgrammedThen(old(Nor()), n, m, Nor(), off, data);
      if status != 0 { return false; }
      ok := true;
    }

    /** One round of `Write`'s loop: as much of `buf` as fits the page that holds `off`. */
    method WriteChunk(off: nat, buf: seq<byte>, ghost n: Nor, ghost off64: nat, ghost data: seq<byte>)
      returns (ok: bool, chunk: nat)
      requires Open() && |buf| > 0 && Underway(n, Nor(), off64, data, off, buf)
      modifies mem.p2a, mem.p2a.bar1
      ensures ok && 0 < chunk <= |buf| && Open() && Underway(n, Nor(), off64, data, off + chunk, buf[chunk..])
    {
      chunk := 256 - off % 256;
      if chunk > |buf| {
        chunk := |buf|;
      }
      ghost var before := Nor();
      ok := ProgramPage(off, buf[..chunk]);
      ChunkWritten(n, before, Nor(), off64, data, off, buf, chunk);
    }

    /** Programs `data` from `off64` on, page by page. */
    method Write(off64: nat, data: seq<byte>) returns (ok: bool)
      requires Open()
      modifies mem.p2a, mem.p2a.bar1
      ensures ok && Open() && SamePart(old(Nor()), Nor())
      ensures SafeExtension(old(Nor()).log, Nor().log)
      ensures ProgramsIn(Nor().log) == ProgramsIn(old(Nor()).log) + PageChunks(off64, data)
      ensures Correct(Nor()) && off64 + |data| <= |Nor().cells| ==>
        AndedInto(old(Nor()).cells, Nor().cells, off64, data)
    {
      ghost var n := Nor();
      var off := off64;
      var buf := data;
      Starting(n, off, buf);
      while |buf| > 0
        invariant Open() && Underway(n, Nor(), off64, data, off, buf)
        decreases |buf|
      {
        var chunk;
        ok, chunk := WriteChunk(off, buf, n, off64, data);
        if !ok { return; }
        buf := buf[chunk..];
        off := off + chunk;
      }
      WritingDone(n, Nor(), off64, data, off);
      ok := true;
    }
  }

  /** Opens the flash. The BMC's processor has been stopped, so the chip is deselected and no
      one else drives it. */
  method FmcNew(p2a: P2aHandle, spiMode: int) returns (r: Outcome<Fmc>)
    requires p2a.Coherent() && !Selected(p2a.bar1.bmc) && Genuine(p2a.bar1.bmc.nor)
    modifies p2a, p2a.bar1
    ensures p2a.Coherent() && !r.Panic?
    ensures r.Done? <==> !p2a.noWrite && Recognised(old(p2a.bar1.bmc), spiMode)
    // Without writes the identifier and the status are read from the same place.
    ensures p2a.noWrite ==> p2a.bar1.bmc == old(p2a.bar1.bmc)
    ensures r.Done? ==> fresh(r.value) && r.value.mem.p2a == p2a && r.value.Open() && r.value.spiMode == spiMode
    // Afterwards chip and controller are in the mode asked for, or in the one they were in.
    ensures r.Done? && spiMode != 0 ==>
      p2a.bar1.bmc.nor.addr4 == (spiMode == 4) && p2a.bar1.bmc.ctl == if spiMode == 4 then 0x701 else 0x700
    ensures spiMode == 0 ==>
      p2a.bar1.bmc.nor.addr4 == old(p2a.bar1.bmc.nor).addr4 && p2a.bar1.bmc.ctl == old(p2a.bar1.bmc).ctl
    ensures p2a.bar1.bmc.nor == old(p2a.bar1.bmc.nor).(
      busy := p2a.bar1.bmc.nor.busy, wel := p2a.bar1.bmc.nor.wel,
      addr4 := p2a.bar1.bmc.nor.addr4, log := p2a.bar1.bmc.nor.log)
    // Opened on an idle chip, only safe frames are sent; a busy one is refused.
    ensures old(p2a.bar1.bmc.nor).busy == 0 ==> SafeExtension(old(p2a.bar1.bmc.nor).log, p2a.bar1.bmc.nor.log)
  {
    var mem := new AstMem(p2a, FMC_MEM, 64 * 1024 * 1024);
    var reg := new AstMem(p2a, FMC_ADDR, 4096);
    var fmc := new Fmc(mem, reg, spiMode);
    var started := fmc.Start();
    if started.Fatal? { return Fatal(started.why); }
    r := Done(fmc);
  }

  /** What makes `FmcNew` succeed: an idle, known chip without unexpected status bits, in the
      address mode the controller assumes, or switchable to the one asked for. */
  ghost predicate Recognised(b: Bmc, spiMode: int) {
    && b.nor.busy == 0 && b.nor.id in {0xc22019, 0xef4019, 0x20ba20, 0xc2201a, 0x010220}
    && b.nor.srHigh in {0, 16}
    && spiMode in {0, 3, 4}
    && (spiMode == 0 ==> (b.ctl % 2 != 0) == b.nor.addr4)
    && (spiMode != 0 ==> b.nor.id != 0xef4019)
  }

  /** No known identifier starts with a byte that would pass as the status. */
  lemma SameByteRefused(id: nat, s: byte)
    requires SpiDb(id).Some? && id / 0x1_0000 == s
    ensures AndNot(AndNot(s, 0x40), 2) != 0
  {
    Pow2s();
    SingleBit(s, 6);
    SingleBit(AndNot(s, 0x40), 1);
  }

  /** The status register without its bit 6 shows no more than the latch. */
  lemma StatusBits(n: Nor)
    requires WellFormed(n)
    ensures var stat := AndNot(StatusByte(n), 0x40);
      && (AndNot(stat, 2) == 0 <==> n.busy == 0 && n.srHigh in {0, 16})
      && (n.busy == 0 && n.srHigh in {0, 16} ==> (And(stat, 2) != 0 <==> n.wel))
  {
    var s: nat, h: nat := StatusByte(n), n.srHigh;
    var w, b := if n.wel then 1 else 0, if n.busy > 0 then 1 else 0;
    assert s == 4 * h + 2 * w + b;
    BitSix(s, h, w, b);
    OtherBits(AndNot(s, 0x40), if h / 16 % 2 == 1 then h - 16 else h, w, b);
  }

  lemma BitSix(s: nat, h: nat, w: nat, b: nat)
    requires s == 4 * h + 2 * w + b && w < 2 && b < 2 && h < 64
    ensures AndNot(s, 0x40) == 4 * (if h / 16 % 2 == 1 then h - 16 else h) + 2 * w + b
  {
    Pow2s();
    SingleBit(s, 6);
    BitFour(s, h);
  }

  lemma OtherBits(stat: nat, h: nat, w: nat, b: nat)
    requires w < 2 && b < 2 && stat == 4 * h + 2 * w + b
    ensures AndNot(stat, 2) == 0 <==> b == 0 && h == 0
    ensures b == 0 && h == 0 ==> (And(stat, 2) != 0 <==> w == 1)
  {
    Pow2s();
    LowBits(stat, h, w, b);
    SingleBit(stat, 1);
    assert Bit(stat, 1) <==> stat / 2 % 2 == 1;
  }

  lemma LowBits(stat: nat, h: nat, w: nat, b: nat)
    requires w < 2 && b < 2 && stat == 4 * h + 2 * w + b
    ensures stat / 2 % 2 == w && stat / 2 == 2 * h + w
  {
  }

  lemma Pow2s()
    ensures Pow2(6) == 0x40 && Pow2(1) == 2
  {
  }

  lemma BitFour(s: nat, h: nat)
    requires h < 64 && s / 4 == h
    ensures Bit(s, 6) <==> h / 16 % 2 == 1
  {
    assert s / 2 / 2 == h;
    assert h / 2 / 2 / 2 / 2 == h / 16;
  }

  /** One page program, safely: it is in the log, and the chip did it. */
  ghost predicate Programmed(n: Nor, m: Nor, off: nat, data: seq<byte>) {
    && SamePart(n, m) && SafeExtension(n.log, m.log) && |n.cells| > 0
    && ProgramsIn(m.log) == ProgramsIn(n.log) + [(U32(off), data)]
    && m.cells == StartOp(n, ProgrammedCells(n.cells, Wrap(U32(off), |n.cells|), data)).cells
  }

  /** Polling after a page program adds nothing, and neither did enabling it. */
  lemma ProgrammedThen(n0: Nor, n: Nor, m: Nor, m': Nor, off: nat, data: seq<byte>)
    requires n == n0.(wel := true, log := n.log) && QuietExtension(n0.log, n.log)
    requires Programmed(n, m, off, data) && Polled(m, m')
    ensures Programmed(n0, m', off, data)
  {
    SafeExtensions(n0.log, n.log, m.log);
    SafeExtensions(n0.log, m.log, m'.log);
  }

  /** Half way through a write: the first `done` bytes have been programmed, the rest of the
      page programs are still to come. */
  ghost predicate Writing(n: Nor, m: Nor, off: nat, data: seq<byte>, done: nat)
    requires done <= |data|
  {
    && SamePart(n, m) && SafeExtension(n.log, m.log)
    && ProgramsIn(m.log) + PageChunks(off + done, data[done..]) ==
       ProgramsIn(n.log) + PageChunks(off, data)
    && (Correct(n) && off + |data| <= |n.cells| <= FMC_WINDOW ==>
         AndedInto(n.cells, m.cells, off, data[..done]))
  }

  lemma SuffixOn(data: seq<byte>, buf: seq<byte>, chunk: nat)
    requires chunk <= |buf| <= |data| && buf == data[|data| - |buf|..]
    ensures buf[chunk..] == data[|data| - (|buf| - chunk)..]
  {
  }

  /** The same for the loop's own variables: `buf` is to be written from `off` on. */
  ghost predicate Underway(n: Nor, m: Nor, off64: nat, data: seq<byte>, off: nat, buf: seq<byte>) {
    && |buf| <= |data| && off == off64 + (|data| - |buf|) && buf == data[|data| - |buf|..]
    && Writing(n, m, off64, data, |data| - |buf|)
  }

  lemma Starting(n: Nor, off: nat, data: seq<byte>)
    ensures Underway(n, n, off, data, off, data)
  {
    assert data[0..] == data;
  }

  lemma WritingDone(n: Nor, m: Nor, off: nat, data: seq<byte>, end: nat)
    requires Underway(n, m, off, data, end, [])
    ensures SamePart(n, m) && SafeExtension(n.log, m.log)
    ensures ProgramsIn(m.log) == ProgramsIn(n.log) + PageChunks(off, data)
    ensures Correct(n) && off + |data| <= |n.cells| <= FMC_WINDOW ==> AndedInto(n.cells, m.cells, off, data)
  {
    assert data[..|data|] == data && data[|data|..] == [];
  }

  lemma NextChunk(off: nat, data: seq<byte>, done: nat, chunk: nat)
    requires done < |data|
    requires chunk == if 256 - (off + done) % 256 > |data| - done then |data| - done
                      else 256 - (off + done) % 256
    ensures PageChunks(off + done, data[done..]) ==
      [(U32(off + done), data[done..done + chunk])] + PageChunks(off + done + chunk, data[done + chunk..])
  {
    assert data[done..][..chunk] == data[done..done + chunk];
    assert data[done..][chunk..] == data[done + chunk..];
  }

  /** One more program frame in the log. */
  lemma LogOn(n: seq<Frame>, before: seq<Frame>, after: seq<Frame>, off: nat, data: seq<byte>, done: nat, chunk: nat)
    requires done < |data|
    requires chunk == if 256 - (off + done) % 256 > |data| - done then |data| - done
                      else 256 - (off + done) % 256
    requires ProgramsIn(before) + PageChunks(off + done, data[done..]) == ProgramsIn(n) + PageChunks(off, data)
    requires ProgramsIn(after) == ProgramsIn(before) + [(U32(off + done), data[done..done + chunk])]
    ensures ProgramsIn(after) + PageChunks(off + (done + chunk), data[done + chunk..]) ==
            ProgramsIn(n) + PageChunks(off, data)
  {
    NextChunk(off, data, done, chunk);
    var p, c, rest := ProgramsIn(before), [(U32(off + done), data[done..done + chunk])],
                      PageChunks(off + done + chunk, data[done + chunk..]);
    assert (p + c) + rest == p + (c + rest);
  }

  /** One more page programmed. */
  lemma WritesOn(n: Nor, before: Nor, after: Nor, off: nat, data: seq<byte>, done: nat, chunk: nat,
                 at: nat, part: seq<byte>)
    requires done < |data| && Writing(n, before, off, data, done) && at == off + done
    requires 0 < chunk <= |data| - done && (chunk == |data| - done <= 256 - at % 256 || chunk == 256 - at % 256)
    requires part == data[done..done + chunk] && Programmed(before, after, at, part)
    ensures Writing(n, after, off, data, done + chunk)
  {
    LogOn(n.log, before.log, after.log, off, data, done, chunk);
    CellsOn(n, before, after, off, data, done, chunk, at, part);
    SafeExtensions(n.log, before.log, after.log);
  }

  lemma CellsOn(n: Nor, before: Nor, after: Nor, off: nat, data: seq<byte>, done: nat, chunk: nat,
                at: nat, part: seq<byte>)
    requires done < |data| && Writing(n, before, off, data, done) && at == off + done
    requires 0 < chunk <= |data| - done && (chunk == |data| - done <= 256 - at % 256 || chunk == 256 - at % 256)
    requires part == data[done..done + chunk] && Programmed(before, after, at, part)
    ensures Correct(n) && off + |data| <= |n.cells| <= FMC_WINDOW ==>
      AndedInto(n.cells, after.cells, off, data[..done + chunk])
  {
    if Correct(n) && off + |data| <= |n.cells| <= FMC_WINDOW {
      PageAnded(n, before, after, off, data, done, chunk);
    }
  }

  lemma ChunkWritten(n: Nor, before: Nor, after: Nor, off64: nat, data: seq<byte>, off: nat, buf: seq<byte>, chunk: nat)
    requires Underway(n, before, off64, data, off, buf)
    requires 0 < chunk <= |buf| && (chunk == |buf| <= 256 - off % 256 || chunk == 256 - off % 256)
    requires Programmed(before, after, off, buf[..chunk])
    ensures Underway(n, after, off64, data, off + chunk, buf[chunk..])
  {
    var done := |data| - |buf|;
    SuffixOn(data, buf, chunk);
    ChunkPlace(data, buf, done, chunk);
    WritesOn(n, before, after, off64, data, done, chunk, off, buf[..chunk]);
    AtNext(n, after, off64, data, off + chunk, buf[chunk..], done + chunk);
  }

  lemma ChunkPlace(data: seq<byte>, buf: seq<byte>, done: nat, chunk: nat)
    requires |buf| <= |data| && done == |data| - |buf| && buf == data[done..] && chunk <= |buf|
    ensures buf[..chunk] == data[done..done + chunk]
  {
  }

  lemma AtNext(n: Nor, m: Nor, off64: nat, data: seq<byte>, off: nat, buf: seq<byte>, done: nat)
    requires |buf| <= |data| && done == |data| - |buf| && off == off64 + done && buf == data[done..]
    requires Writing(n, m, off64, data, done)
    ensures Underway(n, m, off64, data, off, buf)
  {
  }

  /** An address inside the array is used as it is. */
  lemma InRange(off: nat, size: nat)
    requires off < size <= FMC_WINDOW
    ensures Wrap(U32(off), size) == off
  {
  }

  /** On a correct chip an operation leaves what it was meant to. */
  lemma CorrectStart(n: Nor, ideal: seq<byte>)
    requires Correct(n) && |ideal| == |n.cells|
    ensures StartOp(n, ideal).cells == ideal
  {
    assert n.fault(n.ops) == None;
  }

  lemma CorrectPart(n: Nor, before: Nor, ideal: seq<byte>)
    requires Correct(n) && SamePart(n, before) && |ideal| == |before.cells|
    ensures StartOp(before, ideal).cells == ideal
  {
    assert before.fault == n.fault;
    CorrectStart(before, ideal);
  }

  /** One more page programmed, on a correct chip. */
  lemma PageAnded(n: Nor, before: Nor, after: Nor, off: nat, data: seq<byte>, done: nat, chunk: nat)
    requires Correct(n) && SamePart(n, before) && |n.cells| <= FMC_WINDOW
    requires done + chunk <= |data| && off + |data| <= |n.cells| && chunk > 0
    requires (off + done) % 256 + chunk <= 256
    requires AndedInto(n.cells, before.cells, off, data[..done])
    requires after.cells == StartOp(before, ProgrammedCells(before.cells,
      Wrap(U32(off + done), |before.cells|), data[done..done + chunk])).cells
    ensures AndedInto(n.cells, after.cells, off, data[..done + chunk])
  {
    InRange(off + done, |before.cells|);
    PartAnded(n, before, after, off, data, done, chunk, off + done);
  }

  lemma PartAnded(n: Nor, before: Nor, after: Nor, off: nat, data: seq<byte>, done: nat, chunk: nat, a: nat)
    requires Correct(n) && SamePart(n, before) && a == off + done
    requires done + chunk <= |data| && off + |data| <= |n.cells| && a % 256 + chunk <= 256
    requires AndedInto(n.cells, before.cells, off, data[..done])
    requires after.cells == StartOp(before, ProgrammedCells(before.cells, a, data[done..done + chunk])).cells
    ensures AndedInto(n.cells, after.cells, off, data[..done + chunk])
  {
    CorrectPart(n, before, ProgrammedCells(before.cells, a, data[done..done + chunk]));
    ProgramsOn(n.cells, before.cells, off, data, done, chunk);
  }

  /** The part really has the geometry the table gives for its identifier. */
  ghost predicate Genuine(n: Nor) {
    && (n.id in {0xc22019, 0xef4019} ==> |n.cells| == 0x200_0000 && n.eraseSize == 0x1_0000)
    && (n.id in {0x20ba20, 0xc2201a} ==> |n.cells| == 0x400_0000 && n.eraseSize == 0x1_0000)
    && (n.id == 0x010220 ==> |n.cells| == 0x400_0000 && n.eraseSize == 0x4_0000)
  }

  /** One 32-bit read of the window yields the chip's next four bytes in order. */
  lemma WordRead(n: Nor, out: seq<byte>, x: nat, val: word)
    requires WellFormed(n)
    requires val == Le32(Bytes(Clock(n, FrameOf(n, out, x), 4)[|out| + x..]))
    ensures Clock(n, FrameOf(n, out, x), 4) == FrameOf(n, out, x + 4)
    ensures Replies(n, out, x + 4) == Replies(n, out, x) + LeBytes(val)
  {
    ClockAdds(n, Outs(out), x, 4);
    var w, w0 := FrameOf(n, out, x + 4), FrameOf(n, out, x);
    ClockReplies(n, w0, 4);
    LeRoundTrip(Bytes(w[|out| + x..]));
    assert w[|out|..] == w0[|out|..] + w[|out| + x..] by {
      assert w[..|w0|] == w0;
    }
  }
}
