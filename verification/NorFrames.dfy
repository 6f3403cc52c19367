/** What the chip makes of the frames the programmer sends: the wire format, decoded. */
module NorFrames {
  import opened Bits
  import opened Outcomes
  import opened NorFlash

  /** The command and address bytes for `cmd`, or None where the program gives up. */
  function Header(spiMode: int, cmd: byte, off: word): Option<seq<byte>> {
    if spiMode == 4 || Is4B(cmd) then Some([cmd] + BeBytes(off))
    else if spiMode == 3 && cmd in {FREAD, PPROGRAM, ERASE} && off < 0x100_0000 then
      Some([cmd] + BeBytes(off)[1..])
    else None
  }

  /** The chip takes as many address bytes as the header carries. */
  ghost predicate ModeAgrees(n: Nor, spiMode: int, cmd: byte) {
    Is4B(cmd) || n.addr4 == (spiMode == 4)
  }

  /** Sending a header and then anything: the chip decodes the command and the address. */
  lemma HeaderDecodes(n: Nor, spiMode: int, cmd: byte, off: word, wire: seq<Wire>)
    requires Header(spiMode, cmd, off).Some? && ModeAgrees(n, spiMode, cmd)
    requires Outs(Header(spiMode, cmd, off).value) <= wire
    ensures |Header(spiMode, cmd, off).value| == 1 + AddrLen(n, cmd)
    ensures wire[0].b == cmd && WireAddr(wire, AddrLen(n, cmd)) == off
  {
    var h := Header(spiMode, cmd, off).value;
    assert forall i :: 0 <= i < |h| ==> wire[i] == Outs(h)[i];
    BeRoundTrip(off);
  }

  /** The sent bytes lead the frame. */
  lemma FramePrefix(n: Nor, out: seq<byte>, count: nat)
    requires n.srHigh < 64 && |n.cells| > 0
    ensures |FrameOf(n, out, count)| == |out| + count
    ensures Outs(out) <= FrameOf(n, out, count)
    ensures forall i :: 0 <= i < |out| ==> FrameOf(n, out, count)[i] == Out(out[i])
    ensures forall i :: 0 <= i < count ==>
      Replies(n, out, count)[i] == Reply(n, FrameOf(n, out, count)[..|out| + i])
  {
    ClockReplies(n, Outs(out), count);
    var w := FrameOf(n, out, count);
    assert w[..|out|] == Outs(out);
    forall i | 0 <= i < |out| ensures w[i] == Out(out[i]) {
      assert w[i] == w[..|out|][i];
    }
  }

  /** A fast read of an idle chip returns the array from the address on, wrapping at its end,
      and changes nothing. */
  lemma ReadFrame(n: Nor, spiMode: int, cmd: byte, off: word, count: nat)
    requires WellFormed(n) && n.busy == 0 && IsFastRead(cmd)
    requires Header(spiMode, cmd, off).Some? && ModeAgrees(n, spiMode, cmd)
    ensures var out := Header(spiMode, cmd, off).value + [0];
      && (forall i :: 0 <= i < count ==>
           Replies(n, out, count)[i] == n.cells[Wrap(off + i, |n.cells|)])
      && Execute(n, FrameOf(n, out, count)) == n
  {
    var h := Header(spiMode, cmd, off).value;
    var out := h + [0];
    var w := FrameOf(n, out, count);
    FramePrefix(n, out, count);
    assert Outs(h) <= w by {
      assert forall i :: 0 <= i < |h| ==> Outs(h)[i] == w[i];
    }
    HeaderDecodes(n, spiMode, cmd, off, w);
    forall i | 0 <= i < count
      ensures Replies(n, out, count)[i] == n.cells[Wrap(off + i, |n.cells|)]
    {
      var p := w[..|out| + i];
      assert Outs(h) <= p by {
        assert forall j :: 0 <= j < |h| ==> Outs(h)[j] == p[j];
      }
      HeaderDecodes(n, spiMode, cmd, off, p);
    }
  }

  /** A status frame reports the busy and latch bits and counts down the operation. */
  lemma StatusFrame(n: Nor)
    requires WellFormed(n)
    ensures Replies(n, [STATUS], 4)[0] == StatusByte(n)
    ensures Execute(n, FrameOf(n, [STATUS], 4)) ==
      if n.busy > 0 then n.(busy := n.busy - 1, wel := n.busy > 1) else n
    ensures FrameSafe(Frame(FrameOf(n, [STATUS], 4), n.busy > 0, n.wel))
  {
    FramePrefix(n, [STATUS], 4);
  }

  /** A one-byte command is a frame of that byte. */
  lemma CommandFrame(n: Nor, cmd: byte)
    requires WellFormed(n)
    ensures FrameOf(n, [cmd], 0) == [Out(cmd)]
  {
  }

  /** An erase frame on an idle, enabled chip starts the erase of the addressed block. */
  lemma EraseFrame(n: Nor, spiMode: int, cmd: byte, off: word)
    requires WellFormed(n) && n.busy == 0 && n.wel && IsErase(cmd)
    requires Header(spiMode, cmd, off).Some? && ModeAgrees(n, spiMode, cmd)
    ensures Execute(n, FrameOf(n, Header(spiMode, cmd, off).value, 0)) ==
      StartOp(n, ErasedCells(n.cells, Wrap(off, |n.cells|), n.eraseSize))
  {
    var h := Header(spiMode, cmd, off).value;
    FramePrefix(n, h, 0);
    HeaderDecodes(n, spiMode, cmd, off, FrameOf(n, h, 0));
  }

  /** A program frame on an idle, enabled chip starts programming the bytes sent. */
  lemma ProgramFrame(n: Nor, spiMode: int, cmd: byte, off: word, data: seq<byte>)
    requires WellFormed(n) && n.busy == 0 && n.wel && IsProgram(cmd) && |data| > 0
    requires Header(spiMode, cmd, off).Some? && ModeAgrees(n, spiMode, cmd)
    ensures Execute(n, FrameOf(n, Header(spiMode, cmd, off).value + data, 0)) ==
      StartOp(n, ProgrammedCells(n.cells, Wrap(off, |n.cells|), data))
  {
    var h := Header(spiMode, cmd, off).value;
    var out := h + data;
    var w := FrameOf(n, out, 0);
    FramePrefix(n, out, 0);
    assert Outs(h) <= w by {
      assert forall i :: 0 <= i < |h| ==> Outs(h)[i] == w[i];
    }
    HeaderDecodes(n, spiMode, cmd, off, w);
    assert Bytes(w[|h|..]) == data;
  }

  /** Erasing at a block boundary clears exactly that block. */
  lemma ErasesBlock(cells: seq<byte>, off: nat, eraseSize: nat)
    requires eraseSize in {0x1_0000, 0x4_0000} && Aligned(off, eraseSize)
    requires off + eraseSize <= |cells|
    ensures forall p :: 0 <= p < |cells| ==>
      ErasedCells(cells, off, eraseSize)[p] == (if off <= p < off + eraseSize then 0xff else cells[p])
  {
    forall p | 0 <= p < |cells|
      ensures BlockOf(p, eraseSize) == BlockOf(off, eraseSize) <==> off <= p < off + eraseSize
    {
    }
  }

  /** Programming a chunk that stays inside one page ANDs it in place and touches nothing else. */
  lemma ProgramsInPage(cells: seq<byte>, off: nat, data: seq<byte>)
    requires off % 256 + |data| <= 256 && off + |data| <= |cells|
    ensures AndedInto(cells, ProgrammedCells(cells, off, data), off, data)
  {
    forall p | 0 <= p < |cells|
      ensures ProgrammedCells(cells, off, data)[p] ==
        if off <= p < off + |data| then And(cells[p], data[p - off]) else cells[p]
    {
      var lane := (p - off) % 256;
      if p / 256 == off / 256 {
        if p >= off {
          assert lane == p - off;
        } else {
          assert lane == p - off + 256;
        }
        if lane < |data| {
          assert (|data| - 1 - lane) / 256 == 0;
        }
      }
    }
  }

  /** A frame of a header, `extra` and `count` reads carries exactly these, in this order. */
  ghost predicate Carries(wire: seq<Wire>, h: seq<byte>, off: word, extra: seq<byte>, count: nat) {
    && |h| in {4, 5} && |wire| == |h| + |extra| + count
    && wire[0].b == h[0] && WireAddr(wire, |h| - 1) == off
    && (forall i :: 0 <= i < |extra| ==> wire[|h| + i] == Out(extra[i]))
    && (forall i :: |h| + |extra| <= i < |wire| ==> wire[i].In?)
  }

  lemma ReadsComeIn(n: Nor, out: seq<byte>, count: nat)
    requires n.srHigh < 64 && |n.cells| > 0
    ensures forall i :: |out| <= i < |out| + count ==> FrameOf(n, out, count)[i].In?
  {
    ClockReplies(n, Outs(out), count);
  }

  lemma FrameCarries(n: Nor, spiMode: int, cmd: byte, off: word, extra: seq<byte>, count: nat)
    requires WellFormed(n) && Header(spiMode, cmd, off).Some?
    ensures var h := Header(spiMode, cmd, off).value;
      h[0] == cmd && Carries(FrameOf(n, h + extra, count), h, off, extra, count)
  {
    var h := Header(spiMode, cmd, off).value;
    var w := FrameOf(n, h + extra, count);
    HeaderLeads(n, h, extra, count);
    ReadsComeIn(n, h + extra, count);
    HeaderDecodes(n.(addr4 := spiMode == 4), spiMode, cmd, off, w);
  }

  /** First what is sent. */
  lemma HeaderLeads(n: Nor, h: seq<byte>, extra: seq<byte>, count: nat)
    requires n.srHigh < 64 && |n.cells| > 0
    ensures var w := FrameOf(n, h + extra, count);
      && |w| == |h| + |extra| + count && Outs(h) <= w
      && forall i :: 0 <= i < |extra| ==> w[|h| + i] == Out(extra[i])
  {
    var w := FrameOf(n, h + extra, count);
    FramePrefix(n, h + extra, count);
    assert Outs(h) <= w by {
      assert forall i :: 0 <= i < |h| ==> Outs(h)[i] == w[i];
    }
    forall i | 0 <= i < |extra| ensures w[|h| + i] == Out(extra[i]) {
      assert (h + extra)[|h| + i] == extra[i];
    }
  }

  /** Programming on: a further chunk right behind the part already written. */
  lemma ProgramsOn(cells: seq<byte>, mid: seq<byte>, off: nat, data: seq<byte>, done: nat, chunk: nat)
    requires done + chunk <= |data| && off + |data| <= |cells|
    requires (off + done) % 256 + chunk <= 256
    requires AndedInto(cells, mid, off, data[..done])
    ensures AndedInto(cells, ProgrammedCells(mid, off + done, data[done..done + chunk]),
                      off, data[..done + chunk])
  {
    var part := data[done..done + chunk];
    ProgramsInPage(mid, off + done, part);
    ghost var after := ProgrammedCells(mid, off + done, part);
    forall p | 0 <= p < |cells|
      ensures after[p] ==
        if off <= p < off + done + chunk then And(cells[p], data[..done + chunk][p - off]) else cells[p]
    {
      if off <= p < off + done {
        assert mid[p] == And(cells[p], data[..done][p - off]);
      } else if off + done <= p < off + done + chunk {
        assert part[p - (off + done)] == data[p - off];
      }
    }
  }

  /** A logged program frame is read back as its address and data. */
  lemma ProgramLogged(log: seq<Frame>, f: Frame, off: word, data: seq<byte>)
    requires |data| > 0
    requires Carries(f.wire, [PPROGRAM4B] + BeBytes(off), off, data, 0)
    ensures ProgramsIn(log + [f]) == ProgramsIn(log) + [(off, data)]
  {
    assert (log + [f])[..|log|] == log;
    assert Bytes(f.wire[5..]) == data;
  }

  /** A command to an idle chip that neither erases nor programs is safe. */
  lemma SafeFrame(n: Nor, out: seq<byte>, count: nat)
    requires WellFormed(n) && n.busy == 0 && |out| > 0 && !IsErase(out[0]) && !IsProgram(out[0])
    ensures SafeExtension(n.log, Commit(n, FrameOf(n, out, count)).log)
  {
    FramePrefix(n, out, count);
  }

  lemma SafeExtensions(a: seq<Frame>, b: seq<Frame>, c: seq<Frame>)
    requires SafeExtension(a, b) && SafeExtension(b, c)
    ensures SafeExtension(a, c)
  {
  }

  /** The identifier of an idle chip, as `spiId` assembles it. */
  lemma IdFrame(n: Nor)
    requires WellFormed(n) && n.busy == 0
    ensures var s := Replies(n, [RDID], 4);
      0x1_0000 * (s[0] as nat) + 0x100 * (s[1] as nat) + s[2] == n.id
    ensures Execute(n, FrameOf(n, [RDID], 4)) == n
  {
    FramePrefix(n, [RDID], 4);
    assert n.id / 0x1_0000 < 0x100;
    assert n.id / 0x1_0000 == n.id / 0x100 / 0x100;
  }

  /** A busy chip does not answer: the identifier reads as all ones. */
  lemma BusyIdFrame(n: Nor)
    requires WellFormed(n) && n.busy > 0
    ensures forall i :: 0 <= i < 3 ==> Replies(n, [RDID], 4)[i] == 0xff
    ensures Execute(n, FrameOf(n, [RDID], 4)) == n
  {
    FramePrefix(n, [RDID], 4);
  }

  /** The mode bit of a configuration register is the address mode. */
  lemma ConfigFrame(n: Nor, cmd: byte)
    requires WellFormed(n) && n.busy == 0 && cmd in {RDCR, BRRD, RFSR}
    requires Mode4BMask(n.id, cmd) != 0
    ensures And(Replies(n, [cmd], 4)[0], Mode4BMask(n.id, cmd)) != 0 <==> n.addr4
    ensures Execute(n, FrameOf(n, [cmd], 4)) == n
  {
    FramePrefix(n, [cmd], 4);
    MergeMask(n.cfg(cmd), Mode4BMask(n.id, cmd), 8);
    assert Pow2(8) == 256;
  }
}
