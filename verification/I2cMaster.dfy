/** The BMC's I2C master (ast/i2c.go), driven register by register, against any slave. */
module I2cMaster {
  import opened Bits

  // ---- The bus and its slaves ----

  /** What happens on the bus: start conditions, bytes with their acknowledge bit, and stop. */
  datatype Event = Start | Restart | Sent(b: byte, ack: bool) | Got(b: byte, acked: bool) | Stop

  /** The slaves on the bus, as one state machine: an address byte (with the read bit) and a
      data byte are acknowledged or not, a read yields a byte, and stop ends it. */
  datatype Slave<!S> = Slave(onAddr: (S, byte) -> (S, bool), onWrite: (S, byte) -> (S, bool),
                             onRead: S -> (S, byte), onStop: S -> S)

  // ---- The controller ----

  datatype Phase = Idle | Started | Active

  const IDLE: word := 0x0a06_0000
  const STARTED: word := 0x1441_0000
  const ACTIVE: word := 0x0c43_0000
  const SDA: word := 0x2_0000

  /** A sent byte reaches the slaves: the first after a start condition is an address. */
  function Offer<S>(dev: Slave<S>, s: S, phase: Phase, b: byte): (S, bool) {
    if phase == Started then dev.onAddr(s, b) else dev.onWrite(s, b)
  }

  /** The controller's registers at 0x10 (status), 0x14 (command and state) and 0x20 (byte
      buffer), and the bus behind it. A command stays visible for `delay` polls. `sda(n)` is the
      data line after the n-th byte. */
  class I2cHw<!S> {
    const dev: Slave<S>
    const delay: nat -> nat
    const sda: nat -> bool
    var s: S
    var phase: Phase
    var acked: bool
    var status: word
    var sendBuf: byte
    var recvBuf: byte
    var pending: nat
    var trace: seq<Event>

    constructor (dev: Slave<S>, s: S, delay: nat -> nat, sda: nat -> bool)
      ensures this.dev == dev && this.s == s && Quiet() && trace == []
    {
      this.dev, this.s, this.delay, this.sda := dev, s, delay, sda;
      phase, acked, status, sendBuf, recvBuf, pending, trace := Idle, true, 0, 0, 0, 0, [];
    }

    /** Idle, with nothing left in the status register. */
    predicate Quiet()
      reads this
    {
      phase == Idle && status == 0 && pending == 0
    }

    /** The state part of register 0x14 when no command is running. */
    function State(): word
      reads this
    {
      match phase
      case Idle => 0x0a06_0000
      case Started => 0x1441_0000
      case Active => if acked || sda(|trace|) then 0x0c43_0000 else 0x0c41_0000
    }

    method Read32(off: int) returns (v: word)
      requires off in {0x10, 0x14, 0x20}
      modifies `pending
      ensures off == 0x10 ==> v == status && pending == old(pending)
      ensures off == 0x20 ==> v == 0x100 * (recvBuf as nat) + sendBuf && pending == old(pending)
      ensures off == 0x14 && old(pending) == 0 ==> v == State() && pending == 0
      ensures off == 0x14 && old(pending) > 0 ==> v % 0x400 != 0 && pending == old(pending) - 1
    {
      if off == 0x10 {
        v := status;
      } else if off == 0x20 {
        v := 0x100 * (recvBuf as nat) + sendBuf;
      } else if pending > 0 {
        v, pending := 0x0c43_0001, pending - 1;
      } else {
        v := State();
      }
    }

    /** A command: 1 start, 2 send the buffer, 8 receive (0x10: without acknowledge), 0x20 stop. */
    method Command(v: word)
      requires v in {1, 2, 8, 0x18, 0x20} && pending == 0
      modifies `s, `phase, `acked, `status, `recvBuf, `pending, `trace
      ensures v == 1 ==> s == old(s) && phase == Started && status == old(status)
      ensures v == 1 ==> trace == old(trace) + [if old(phase) == Idle then Start else Restart]
      ensures v == 2 ==> (s, acked) == Offer(dev, old(s), old(phase), sendBuf) && phase == Active
      ensures v == 2 ==> trace == old(trace) + [Sent(sendBuf, acked)]
      ensures v == 2 ==> status == Or(old(status), if acked then 1 else 2)
      ensures v in {8, 0x18} ==> (s, recvBuf) == dev.onRead(old(s)) && phase == Active
      ensures v in {8, 0x18} ==> trace == old(trace) + [Got(recvBuf, v == 8)]
      ensures v in {8, 0x18} ==> status == Or(old(status), 4)
      ensures v == 0x20 ==> s == dev.onStop(old(s)) && phase == Idle && trace == old(trace) + [Stop]
      ensures v == 0x20 ==> status == Or(old(status), 0x10)
    {
      pending := delay(|trace|);
      if v == 1 {
        trace, phase := trace + [if phase == Idle then Start else Restart], Started;
      } else if v == 2 {
        var r := Offer(dev, s, phase, sendBuf);
        SetStatus(if r.1 then 1 else 2);
        s, acked, phase, trace := r.0, r.1, Active, trace + [Sent(sendBuf, r.1)];
      } else if v == 0x20 {
        SetStatus(0x10);
        s, phase, trace := dev.onStop(s), Idle, trace + [Stop];
      } else {
        var r := dev.onRead(s);
        SetStatus(4);
        s, recvBuf, acked, phase, trace := r.0, r.1, false, Active, trace + [Got(r.1, v == 8)];
      }
    }

    method SetStatus(bits: word)
      modifies `status
      ensures status == Or(old(status), bits)
    {
      OrFits(status, bits);
      status := Or(status, bits);
    }

    method Write32(off: int, v: word)
      requires off in {0x10, 0x20}
      modifies `status, `sendBuf
      ensures status == if off == 0x10 then AndNot(old(status), v) else old(status)
      ensures sendBuf == if off == 0x20 then v % 0x100 else old(sendBuf)
    {
      if off == 0x10 {
        status := AndNot(status, v);
      } else {
        sendBuf := v % 0x100;
      }
    }
  }

  // ---- What a transaction should do ----

  /** Part of a transaction: the slaves after it, its events, and whether every byte sent in a
      write phase was acknowledged. */
  datatype Run<S> = Run(s: S, trace: seq<Event>, ok: bool)

  /** The first `k` of `bytes` are sent, up to the first that is not acknowledged. */
  function SendRun<S>(dev: Slave<S>, r0: Run<S>, bytes: seq<byte>, k: nat): Run<S>
    requires k <= |bytes|
  {
    if k == 0 then r0
    else
      var r := SendRun(dev, r0, bytes, k - 1);
      if !r.ok then r
      else
        var a := dev.onWrite(r.s, bytes[k - 1]);
        Run(a.0, r.trace + [Sent(bytes[k - 1], a.1)], a.1)
  }

  /** Bytes `0..k` of `n` are read; only the very last is not acknowledged. */
  function ReadRun<S>(dev: Slave<S>, s: S, n: nat, k: nat): (r: (Run<S>, seq<byte>))
    requires k <= n
    ensures |r.1| == k
  {
    if k == 0 then (Run(s, [], true), [])
    else
      var (r, data) := ReadRun(dev, s, n, k - 1);
      var a := dev.onRead(r.s);
      (Run(a.0, r.trace + [Got(a.1, k != n)], true), data + [a.1])
  }

  /** `byte(addr * 2)`. */
  function AddrByte(addr: nat): (b: byte)
    ensures b % 2 == 0
  {
    addr * 2 % 0x100
  }

  /** The write phase: address, then data. */
  function WritePhase<S>(dev: Slave<S>, s: S, addr: nat, w: seq<byte>): Run<S> {
    var a := dev.onAddr(s, AddrByte(addr));
    SendRun(dev, Run(a.0, [Sent(AddrByte(addr), a.1)], a.1), w, |w|)
  }

  /** The read phase. That the address was not acknowledged is not noticed. */
  function ReadPhase<S>(dev: Slave<S>, s: S, addr: nat, n: nat): (Run<S>, seq<byte>) {
    var b: byte := AddrByte(addr) + 1;
    var a := dev.onAddr(s, b);
    var (r, data) := ReadRun(dev, a.0, n, n);
    (r.(trace := [Sent(b, a.1)] + r.trace), data)
  }

  /** A whole transaction, from start to stop, and the bytes read. */
  function TxRun<S>(dev: Slave<S>, s: S, addr: nat, w: seq<byte>, n: nat): (Run<S>, seq<byte>) {
    var (t, data) := TxMiddle(dev, s, addr, w, n);
    (Run(dev.onStop(t.s), [Start] + t.trace + [Stop], t.ok), data)
  }

  /** What lies between its start and its stop. */
  function TxMiddle<S>(dev: Slave<S>, s: S, addr: nat, w: seq<byte>, n: nat): (Run<S>, seq<byte>) {
    var r := if w == [] then Run(s, [], true) else WritePhase(dev, s, addr, w);
    if !r.ok || n == 0 then (r, [])
    else
      var (q, data) := ReadPhase(dev, r.s, addr, n);
      (Run(q.s, r.trace + (if w == [] then [] else [Restart]) + q.trace, true), data)
  }

  // ---- The driver ----

  /** `cmd&^0x20000 == 0x0c410000`: the state is active, whatever the data line. */
  predicate ActiveState(cmd: word) { cmd == ACTIVE || cmd == ACTIVE - SDA }

  lemma SdaBit(a: nat)
    ensures Bit(a, 17) <==> a / SDA % 2 == 1
  {
    var b: nat := a / 0x10;
    var c: nat := b / 0x10;
    var d: nat := c / 0x10;
    DigitUp(a, 13);
    DigitUp(b, 9);
    DigitUp(c, 5);
    DigitUp(d, 1);
    BitOne(d / 0x10);
  }

  lemma DigitUp(a: nat, i: nat)
    ensures Bit(a, i + 4) == Bit(a / 0x10, i)
  {
    assert Bit(a, i + 4) == Bit(a / 2, i + 3) == Bit(a / 2 / 2, i + 2);
    assert Bit(a / 2 / 2, i + 2) == Bit(a / 2 / 2 / 2, i + 1) == Bit(a / 2 / 2 / 2 / 2, i);
  }

  lemma BitOne(a: nat)
    ensures Bit(a, 1) <==> a / 2 % 2 == 1
  {
  }

  lemma ActiveStates(cmd: word)
    ensures ActiveState(cmd) <==> AndNot(cmd, SDA) == 0x0c41_0000
  {
    MaskSda(cmd);
  }

  lemma MaskSda(cmd: word)
    ensures AndNot(cmd, SDA) == cmd - (if cmd / SDA % 2 == 1 then SDA else 0)
  {
    assert Pow2(8) == 0x100 && Pow2(16) == 0x1_0000 && Pow2(17) == SDA;
    SingleBit(cmd, 17);
    SdaBit(cmd);
  }

  lemma {:induction false} ClearAll(a: nat)
    ensures AndNot(a, a) == 0
    decreases a
  {
    if a != 0 { ClearAll(a / 2); }
  }

  /** The status after a byte was sent. */
  lemma SentStatus(acked: bool, sts: word)
    requires sts == Or(0, if acked then 1 else 2)
    ensures sts == (if acked then 1 else 2) && (And(sts, 2) == 0 <==> acked)
  {
  }

  class I2cBus<!S> {
    const m: I2cHw<S>
    const extraCheck: bool
    var bytes: nat
    var starting: bool

    constructor (m: I2cHw<S>, extraCheck: bool)
      ensures this.m == m && this.extraCheck == extraCheck
    {
      this.m, this.extraCheck, bytes, starting := m, extraCheck, 0, false;
    }

    /** Polls until no command is running. */
    method Wait()
      modifies m`pending
      ensures m.pending == 0
    {
      var cmd := m.Read32(0x14);
      while cmd % 0x400 != 0
        invariant cmd % 0x400 != 0 || m.pending == 0
        decreases m.pending + if cmd % 0x400 != 0 then 1 else 0
      {
        cmd := m.Read32(0x14);
      }
    }

    /** Between commands: nothing running, nothing left in the status register. */
    ghost predicate Ready()
      reads m
    {
      m.pending == 0 && m.status == 0
    }

    /** A start condition. `ok` is false where the Go code calls `log.Fatalf`. */
    method StartBus(repeat: bool) returns (ok: bool)
      requires Ready()
      modifies `starting, m`phase, m`pending, m`s, m`acked, m`status, m`recvBuf, m`trace
      ensures ok <==> (!repeat && old(m.State()) == IDLE) || (repeat && (old(m.State()) == ACTIVE || !extraCheck))
      ensures ok ==> Ready() && m.phase == Started && starting && m.s == old(m.s)
      ensures ok ==> m.trace == old(m.trace) + [if old(m.phase) == Idle then Start else Restart]
    {
      starting := true;
      var cmd := m.Read32(0x14);
      if !(cmd == IDLE && !repeat) && !(cmd == ACTIVE && repeat) && !(repeat && !extraCheck) {
        return false;
      }
      m.Command(1);
      Wait();
      var sts := m.Read32(0x10);
      ok := sts == 0;
    }

    /** Sends a byte; `nacked` is the error return. */
    method TxByte(b: byte) returns (ok: bool, nacked: bool)
      requires Ready() && m.phase != Idle
      modifies `starting, `bytes, m`phase, m`pending, m`s, m`acked, m`status, m`recvBuf, m`sendBuf, m`trace
      ensures ok <==> (!extraCheck || (old(m.State()) == STARTED && old(starting))
                       || (old(m.State()) == ACTIVE && !old(starting)))
      ensures ok ==> Ready() && m.phase == Active && !starting && m.acked == !nacked
      ensures ok ==> (m.s, !nacked) == Offer(m.dev, old(m.s), old(m.phase), b)
      ensures ok ==> m.trace == old(m.trace) + [Sent(b, !nacked)]
      ensures ok ==> bytes == old(bytes) + if nacked then 0 else 1
    {
      var cmd := m.Read32(0x14);
      if !(cmd == STARTED && starting) && !(cmd == ACTIVE && !starting) && extraCheck {
        return false, false;
      }
      starting := false;
      m.Write32(0x20, b);
      m.Command(2);
      Wait();
      var sts := m.Read32(0x10);
      SentStatus(m.acked, sts);
      ClearAll(sts);
      m.Write32(0x10, sts);
      nacked := And(sts, 2) != 0;
      ok := nacked || sts == 1;
      if ok && !nacked { bytes := bytes + 1; }
    }

    /** Receives a byte, withholding the acknowledge bit from the last one. */
    method RxByte(last: bool) returns (ok: bool, b: byte)
      requires Ready() && m.phase != Idle
      modifies `bytes, m`phase, m`pending, m`s, m`acked, m`status, m`recvBuf, m`sendBuf, m`trace
      ensures ok <==> !extraCheck || old(m.phase) == Active
      ensures ok ==> Ready() && m.phase == Active && (m.s, b) == m.dev.onRead(old(m.s))
      ensures ok ==> m.trace == old(m.trace) + [Got(b, !last)] && bytes == old(bytes) + 1
    {
      var cmd := m.Read32(0x14);
      if !ActiveState(cmd) && extraCheck { return false, 0; }
      m.Command(if last then 0x18 else 8);
      Wait();
      var sts := m.Read32(0x10);
      var buf := m.Read32(0x20);
      b := buf / 0x100 % 0x100;
      ClearAll(sts);
      ok := sts == 4;
      if ok {
        m.Write32(0x10, sts);
        bytes := bytes + 1;
      }
    }

    /** A stop condition. */
    method StopBus() returns (ok: bool)
      requires Ready() && m.phase != Idle
      modifies m`phase, m`pending, m`s, m`acked, m`status, m`recvBuf, m`sendBuf, m`trace
      ensures ok <==> !extraCheck || old(m.phase) == Active
      ensures ok ==> m.Quiet() && m.s == m.dev.onStop(old(m.s)) && m.trace == old(m.trace) + [Stop]
    {
      var cmd := m.Read32(0x14);
      if !ActiveState(cmd) && extraCheck { return false; }
      m.Command(0x20);
      Wait();
      var sts := m.Read32(0x10);
      ClearAll(sts);
      ok := sts == 0x10;
      if ok { m.Write32(0x10, sts); }
    }

    /** The write phase of `Tx`. */
    method SendAll(addr: nat, w: seq<byte>) returns (ok: bool, err: bool)
      requires Ready() && m.phase == Started && starting
      modifies `starting, `bytes, m`phase, m`pending, m`s, m`acked, m`status, m`recvBuf, m`sendBuf, m`trace
      ensures ok && Ready() && m.phase == Active && m.acked == !err
      ensures var t := WritePhase(m.dev, old(m.s), addr, w);
        m.s == t.s && m.trace == old(m.trace) + t.trace && err == !t.ok
    {
      ok, err := TxByte(AddrByte(addr));
      ghost var r0 := Run(m.s, [Sent(AddrByte(addr), !err)], !err);
      var i := 0;
      while ok && !err && i < |w|
        invariant i <= |w| && ok && Ready() && m.phase == Active && m.acked == !err && !starting
        invariant var t := SendRun(m.dev, r0, w, i);
          m.s == t.s && m.trace == old(m.trace) + t.trace && err == !t.ok
      {
        ok, err := TxByte(w[i]);
        i := i + 1;
      }
      SendStops(m.dev, r0, w, i, |w|);
    }

    /** The read phase of `Tx`. */
    method ReceiveAll(addr: nat, r: array<byte>) returns (ok: bool)
      requires Ready() && m.phase == Started && starting
      modifies r, `starting, `bytes, m`phase, m`pending, m`s, m`acked, m`status, m`recvBuf, m`sendBuf, m`trace
      ensures ok && Ready() && m.phase == Active
      ensures var (t, data) := ReadPhase(m.dev, old(m.s), addr, r.Length);
        m.s == t.s && m.trace == old(m.trace) + t.trace && r[..] == data
    {
      var ignored;
      ok, ignored := TxByte(AddrByte(addr) + 1);
      ghost var s1, t1 := m.s, m.trace;
      var n := 0;
      while ok && n < r.Length
        invariant n <= r.Length && ok && Ready() && m.phase == Active
        invariant var (t, data) := ReadRun(m.dev, s1, r.Length, n);
          m.s == t.s && m.trace == t1 + t.trace && r[..n] == data
      {
        var b;
        ok, b := RxByte(n == r.Length - 1);
        r[n] := b;
        n := n + 1;
      }
    }

    /** The second half of `Tx`: another start if bytes went out, and the read phase. */
    method ReadBack(addr: nat, again: bool, r: array<byte>) returns (ok: bool)
      requires Ready() && (if again then m.phase == Active && m.acked else m.phase == Started && starting)
      modifies r, `starting, `bytes, m`phase, m`pending, m`s, m`acked, m`status, m`recvBuf, m`sendBuf, m`trace
      ensures ok && Ready() && m.phase == Active
      ensures var (t, data) := ReadPhase(m.dev, old(m.s), addr, r.Length);
        && m.s == t.s && r[..] == data
        && m.trace == old(m.trace) + (if again then [Restart] else []) + t.trace
    {
      ok := true;
      if again { ok := StartBus(true); }
      if ok { ok := ReceiveAll(addr, r); }
    }

    /** What `Tx` does between start and stop. */
    method Transfer(addr: nat, w: seq<byte>, r: array<byte>) returns (ok: bool, err: bool)
      requires Ready() && m.phase == Started && starting
      modifies r, `starting, `bytes, m`phase, m`pending, m`s, m`acked, m`status, m`recvBuf, m`sendBuf, m`trace
      ensures ok && Ready()
      ensures m.phase == if w == [] && r.Length == 0 then Started else Active
      ensures var (t, data) := TxMiddle(m.dev, old(m.s), addr, w, r.Length);
        && m.s == t.s && m.trace == old(m.trace) + t.trace && err == !t.ok
        && r[..] == if err then old(r[..]) else data
    {
      ok, err := true, false;
      if w != [] {
        ok, err := SendAll(addr, w);
        if err { return; }
      }
      if ok && r.Length > 0 {
        ok := ReadBack(addr, w != [], r);
      }
    }

    /** A whole transaction. `ok` is false where the program dies, `err` is the error return. */
    method Tx(addr: nat, w: seq<byte>, r: array<byte>) returns (ok: bool, err: bool)
      requires m.Quiet()
      modifies r, this, m
      ensures ok <==> !(w == [] && r.Length == 0 && extraCheck)
      ensures ok ==> m.Quiet()
      ensures var (t, data) := TxRun(m.dev, old(m.s), addr, w, r.Length); ok ==>
        && m.s == t.s && m.trace == old(m.trace) + t.trace && err == !t.ok
        && r[..] == if err then old(r[..]) else data
    {
      bytes, err := 0, false;
      ok := StartBus(false);
      if ok { ok, err := Transfer(addr, w, r); }
      if ok { ok := StopBus(); }
    }
  }

  lemma {:induction false} SendStops<S>(dev: Slave<S>, r0: Run<S>, bytes: seq<byte>, i: nat, k: nat)
    requires i <= k <= |bytes| && (SendRun(dev, r0, bytes, i).ok ==> i == k)
    ensures SendRun(dev, r0, bytes, k) == SendRun(dev, r0, bytes, i)
    decreases k
  {
    if i < k { SendStops(dev, r0, bytes, i, k - 1); }
  }

  // ---- What the bus sees ----

  /** Where a bus is in a transaction. */
  datatype Stage = Free | Addressing | Writing | Reading | Ending | Illegal

  /** The bus protocol: a start is followed by an address, whose lowest bit tells the direction;
      a void message is illegal; the receiver of a read must refuse the last byte, and only that;
      and after a refused byte nothing may follow but stop or a repeated start. With
      `strict == false` the last rule is waived for the address of a read. */
  function Step(strict: bool, at: Stage, e: Event): Stage {
    match e
    case Start => if at == Free then Addressing else Illegal
    case Restart => if at == Writing || at == Ending then Addressing else Illegal
    case Stop => if at == Writing || at == Ending then Free else Illegal
    case Got(_, acked) => if at != Reading then Illegal else if acked then Reading else Ending
    case Sent(b, ack) =>
      if at == Addressing && b % 2 == 1 then (if ack || !strict then Reading else Ending)
      else if at == Addressing || at == Writing then (if ack then Writing else Ending)
      else Illegal
  }

  function Steps(strict: bool, at: Stage, events: seq<Event>): Stage
    decreases |events|
  {
    if events == [] then at
    else Step(strict, Steps(strict, at, events[..|events| - 1]), events[|events| - 1])
  }

  function SentBytes(events: seq<Event>): seq<byte>
    decreases |events|
  {
    if events == [] then []
    else
      var e, before := events[|events| - 1], SentBytes(events[..|events| - 1]);
      if e.Sent? then before + [e.b] else before
  }

  function GotBytes(events: seq<Event>): seq<byte>
    decreases |events|
  {
    if events == [] then []
    else
      var e, before := events[|events| - 1], GotBytes(events[..|events| - 1]);
      if e.Got? then before + [e.b] else before
  }

  lemma Snoc(strict: bool, at: Stage, events: seq<Event>, e: Event)
    ensures Steps(strict, at, events + [e]) == Step(strict, Steps(strict, at, events), e)
    ensures SentBytes(events + [e]) == if e.Sent? then SentBytes(events) + [e.b] else SentBytes(events)
    ensures GotBytes(events + [e]) == if e.Got? then GotBytes(events) + [e.b] else GotBytes(events)
  {
    assert (events + [e])[..|events|] == events;
  }

  lemma {:induction false} Concat(strict: bool, at: Stage, a: seq<Event>, b: seq<Event>)
    ensures Steps(strict, at, a + b) == Steps(strict, Steps(strict, at, a), b)
    ensures SentBytes(a + b) == SentBytes(a) + SentBytes(b)
    ensures GotBytes(a + b) == GotBytes(a) + GotBytes(b)
    decreases |b|
  {
    if b == [] {
      assert a + b == a;
    } else {
      var n := |b| - 1;
      assert (a + b)[..|a + b| - 1] == a + b[..n];
      Concat(strict, at, a, b[..n]);
    }
  }

  /** The first `k` data bytes of a write phase, as the bus sees them. */
  lemma {:induction false} SendStages<S>(strict: bool, dev: Slave<S>, r0: Run<S>, first: byte, w: seq<byte>, k: nat)
    requires first % 2 == 0 && k <= |w| && r0.trace == [Sent(first, r0.ok)]
    ensures var r := SendRun(dev, r0, w, k);
      Steps(strict, Addressing, r.trace) == if r.ok then Writing else Ending
    decreases k
  {
    if k == 0 {
      FirstStage(strict, first, r0.ok);
    } else {
      SendStages(strict, dev, r0, first, w, k - 1);
      var r := SendRun(dev, r0, w, k - 1);
      if r.ok {
        var a := dev.onWrite(r.s, w[k - 1]);
        NextStage(strict, r.trace, w[k - 1], a.1);
        assert SendRun(dev, r0, w, k) == Run(a.0, r.trace + [Sent(w[k - 1], a.1)], a.1);
      }
    }
  }

  lemma FirstStage(strict: bool, first: byte, ack: bool)
    requires first % 2 == 0
    ensures Steps(strict, Addressing, [Sent(first, ack)]) == if ack then Writing else Ending
  {
    assert [] + [Sent(first, ack)] == [Sent(first, ack)];
    Snoc(strict, Addressing, [], Sent(first, ack));
  }

  lemma NextStage(strict: bool, events: seq<Event>, b: byte, ack: bool)
    requires Steps(strict, Addressing, events) == Writing
    ensures Steps(strict, Addressing, events + [Sent(b, ack)]) == if ack then Writing else Ending
  {
    Snoc(strict, Addressing, events, Sent(b, ack));
  }

  lemma {:induction false} SendLast<S>(dev: Slave<S>, r0: Run<S>, first: byte, w: seq<byte>, k: nat)
    requires k <= |w| && r0.trace == [Sent(first, r0.ok)]
    ensures var r := SendRun(dev, r0, w, k);
      r.trace != [] && r.trace[|r.trace| - 1].Sent? && r.trace[|r.trace| - 1].ack == r.ok
    decreases k
  {
    if k > 0 { SendLast(dev, r0, first, w, k - 1); }
  }

  lemma {:induction false} SendCarries<S>(dev: Slave<S>, r0: Run<S>, first: byte, w: seq<byte>, k: nat)
    requires k <= |w| && r0.trace == [Sent(first, r0.ok)]
    ensures var r := SendRun(dev, r0, w, k);
      && SentBytes(r.trace) <= [first] + w[..k]
      && (r.ok ==> SentBytes(r.trace) == [first] + w[..k])
      && GotBytes(r.trace) == []
    decreases k
  {
    if k == 0 {
      Snoc(false, Addressing, [], r0.trace[0]);
      assert [] + [r0.trace[0]] == r0.trace;
    } else {
      SendCarries(dev, r0, first, w, k - 1);
      var r := SendRun(dev, r0, w, k - 1);
      var head := [first] + w[..k - 1];
      assert [first] + w[..k] == head + [w[k - 1]];
      Snoc(false, Addressing, r.trace, Sent(w[k - 1], dev.onWrite(r.s, w[k - 1]).1));
    }
  }

  /** The first `k` bytes of a read phase of `n`, as the bus sees them. */
  lemma {:induction false} ReadShape<S>(strict: bool, dev: Slave<S>, s: S, n: nat, k: nat)
    requires k <= n
    ensures var (r, data) := ReadRun(dev, s, n, k);
      && Steps(strict, Reading, r.trace) == (if k == n > 0 then Ending else Reading)
      && |r.trace| == k && (k > 0 ==> r.trace[k - 1].Got?)
      && SentBytes(r.trace) == [] && GotBytes(r.trace) == data
    decreases k
  {
    if k > 0 {
      ReadShape(strict, dev, s, n, k - 1);
      var (r, data) := ReadRun(dev, s, n, k - 1);
      var a := dev.onRead(r.s);
      var e := Got(a.1, k != n);
      Snoc(strict, Reading, r.trace, e);
      assert ReadRun(dev, s, n, k) == (Run(a.0, r.trace + [e], true), data + [a.1]);
    }
  }

  /** Reading on after a refused address breaks the protocol. */
  lemma {:induction false} RefusedRead<S>(dev: Slave<S>, s: S, n: nat, k: nat)
    requires k <= n
    ensures Steps(true, Ending, ReadRun(dev, s, n, k).0.trace) == if k == 0 then Ending else Illegal
    decreases k
  {
    if k > 0 {
      RefusedRead(dev, s, n, k - 1);
      var r := ReadRun(dev, s, n, k - 1).0;
      var a := dev.onRead(r.s);
      var e := Got(a.1, k != n);
      Snoc(true, Ending, r.trace, e);
      assert ReadRun(dev, s, n, k).0 == Run(a.0, r.trace + [e], true);
    }
  }

  /** Whether the address of a read of the slaves in state `s` is acknowledged. */
  predicate ReadAcked<S>(dev: Slave<S>, s: S, addr: nat) { dev.onAddr(s, AddrByte(addr) + 1).1 }

  lemma ReadPhaseShape<S>(strict: bool, dev: Slave<S>, s: S, addr: nat, n: nat)
    requires n > 0
    ensures var (q, data) := ReadPhase(dev, s, addr, n);
      && Steps(strict, Addressing, q.trace) == (if strict && !ReadAcked(dev, s, addr) then Illegal else Ending)
      && q.trace[|q.trace| - 1].Got? && |data| == n
      && SentBytes(q.trace) == [AddrByte(addr) + 1] && GotBytes(q.trace) == data
  {
    var b: byte := AddrByte(addr) + 1;
    var a := dev.onAddr(s, b);
    var (r, data) := ReadRun(dev, a.0, n, n);
    var first := [Sent(b, a.1)];
    assert b % 2 == 1;
    Snoc(strict, Addressing, [], first[0]);
    assert [] + [first[0]] == first;
    Concat(strict, Addressing, first, r.trace);
    ReadShape(strict, dev, a.0, n, n);
    RefusedRead(dev, a.0, n, n);
  }

  /** Start and stop around the phases of a transaction. */
  lemma Framed(strict: bool, middle: seq<Event>)
    ensures var t := [Start] + middle + [Stop];
      && Steps(strict, Free, t) == Step(strict, Steps(strict, Addressing, middle), Stop)
      && SentBytes(t) == SentBytes(middle) && GotBytes(t) == GotBytes(middle)
  {
    Snoc(strict, Free, [], Start);
    assert [] + [Start] == [Start];
    Concat(strict, Free, [Start], middle);
    Snoc(strict, Free, [Start] + middle, Stop);
  }

  /** The read phase of a transaction happens: it has one, and the write phase did not fail. */
  predicate Reads<S>(dev: Slave<S>, s: S, addr: nat, w: seq<byte>, n: nat) {
    n > 0 && (w == [] || WritePhase(dev, s, addr, w).ok)
  }

  /** The slaves when the read phase begins. */
  function Queried<S>(dev: Slave<S>, s: S, addr: nat, w: seq<byte>): S {
    if w == [] then s else WritePhase(dev, s, addr, w).s
  }

  lemma FirstByte<S>(dev: Slave<S>, s: S, addr: nat, w: seq<byte>, n: nat)
    requires w != [] || n > 0
    ensures var t := TxRun(dev, s, addr, w, n).0;
      && |t.trace| > 1 && t.trace[0] == Start && t.trace[1].Sent?
      && t.trace[1].b == if w == [] then 2 * addr % 0x100 + 1 else 2 * addr % 0x100
  {
    if w == [] {
      assert ReadPhase(dev, s, addr, n).0.trace[0].Sent?;
    } else {
      var a := dev.onAddr(s, AddrByte(addr));
      FirstKept(dev, Run(a.0, [Sent(AddrByte(addr), a.1)], a.1), w, |w|);
    }
  }

  lemma {:induction false} FirstKept<S>(dev: Slave<S>, r0: Run<S>, w: seq<byte>, k: nat)
    requires k <= |w| && |r0.trace| == 1
    ensures |SendRun(dev, r0, w, k).trace| >= 1 && SendRun(dev, r0, w, k).trace[0] == r0.trace[0]
    decreases k
  {
    if k > 0 { FirstKept(dev, r0, w, k - 1); }
  }

  /** `Tx` against the bus protocol, for every slave behaviour: its trace is a legal transaction
      exactly if the slave acknowledges the address of the read phase, if there is one, since
      `TxByte`'s error is dropped there; apart from that rule it is always legal. It reports an
      error exactly if the last event before stop is a refused byte. On success the bytes sent are
      the two addresses and `w`, and the bytes received are the ones returned. */
  lemma TxOnTheBus<S>(dev: Slave<S>, s: S, addr: nat, w: seq<byte>, n: nat)
    requires w != [] || n > 0
    ensures var (t, data) := TxRun(dev, s, addr, w, n);
      && Steps(false, Free, t.trace) == Free
      && (Steps(true, Free, t.trace) == Free
          <==> (Reads(dev, s, addr, w, n) ==> ReadAcked(dev, Queried(dev, s, addr, w), addr)))
    ensures var (t, data) := TxRun(dev, s, addr, w, n);
      var last := t.trace[|t.trace| - 2];
      !t.ok <==> last.Sent? && !last.ack
    ensures var (t, data) := TxRun(dev, s, addr, w, n);
      && GotBytes(t.trace) == data && SentBytes(t.trace) <= Wire(addr, w, n)
      && (t.ok ==> |data| == n && SentBytes(t.trace) == Wire(addr, w, n))
    // The first byte is the 7-bit address, shifted, with the read bit only if nothing is written.
    ensures addr < 0x80 ==> var t := TxRun(dev, s, addr, w, n).0;
      && |t.trace| > 1 && t.trace[0] == Start && t.trace[1].Sent?
      && t.trace[1].b == if w == [] then 2 * addr + 1 else 2 * addr
  {
    FirstByte(dev, s, addr, w, n);
    forall strict: bool
      ensures Shaped(strict, dev, s, addr, w, n)
    {
      if w == [] {
        ReadOnly(strict, dev, s, addr, n);
      } else if n == 0 || !WritePhase(dev, s, addr, w).ok {
        WriteOnly(strict, dev, s, addr, w, n);
      } else {
        WriteThenRead(strict, dev, s, addr, w, n);
      }
    }
    assert Shaped(true, dev, s, addr, w, n) && Shaped(false, dev, s, addr, w, n);
  }

  /** The three claims of `TxOnTheBus`, for either protocol. */
  ghost predicate Shaped<S>(strict: bool, dev: Slave<S>, s: S, addr: nat, w: seq<byte>, n: nat)
    requires w != [] || n > 0
  {
    var (t, data) := TxRun(dev, s, addr, w, n);
    && |t.trace| >= 2
    && (Steps(strict, Free, t.trace) == Free
        <==> (strict && Reads(dev, s, addr, w, n) ==> ReadAcked(dev, Queried(dev, s, addr, w), addr)))
    && (!t.ok <==> t.trace[|t.trace| - 2].Sent? && !t.trace[|t.trace| - 2].ack)
    && GotBytes(t.trace) == data && SentBytes(t.trace) <= Wire(addr, w, n)
    && (t.ok ==> |data| == n && SentBytes(t.trace) == Wire(addr, w, n))
  }

  /** The bytes of a transaction from the master. */
  function Wire(addr: nat, w: seq<byte>, n: nat): seq<byte> {
    (if w == [] then [] else [2 * addr % 0x100] + w) + if n == 0 then [] else [2 * addr % 0x100 + 1]
  }

  lemma WriteOnly<S>(strict: bool, dev: Slave<S>, s: S, addr: nat, w: seq<byte>, n: nat)
    requires w != [] && (n == 0 || !WritePhase(dev, s, addr, w).ok)
    ensures Shaped(strict, dev, s, addr, w, n)
  {
    var r := WritePhase(dev, s, addr, w);
    WriteShape(strict, dev, s, addr, w);
    Framed(strict, r.trace);
    assert TxRun(dev, s, addr, w, n).0.trace == [Start] + r.trace + [Stop];
    assert [AddrByte(addr)] + w <= Wire(addr, w, n);
  }

  lemma ReadOnly<S>(strict: bool, dev: Slave<S>, s: S, addr: nat, n: nat)
    requires n > 0
    ensures Shaped(strict, dev, s, addr, [], n)
  {
    ReadPhaseShape(strict, dev, s, addr, n);
    var q := ReadPhase(dev, s, addr, n).0;
    assert TxRun(dev, s, addr, [], n).0.trace == [Start] + q.trace + [Stop];
    Framed(strict, q.trace);
  }

  lemma WriteThenRead<S>(strict: bool, dev: Slave<S>, s: S, addr: nat, w: seq<byte>, n: nat)
    requires w != [] && n > 0 && WritePhase(dev, s, addr, w).ok
    ensures Shaped(strict, dev, s, addr, w, n)
  {
    var r := WritePhase(dev, s, addr, w);
    var q := ReadPhase(dev, r.s, addr, n).0;
    WriteShape(strict, dev, s, addr, w);
    ReadPhaseShape(strict, dev, r.s, addr, n);
    Middle(strict, r.trace, q.trace);
    assert TxRun(dev, s, addr, w, n).0.trace == [Start] + (r.trace + [Restart] + q.trace) + [Stop];
    Framed(strict, r.trace + [Restart] + q.trace);
  }

  lemma WriteShape<S>(strict: bool, dev: Slave<S>, s: S, addr: nat, w: seq<byte>)
    ensures var r := WritePhase(dev, s, addr, w);
      && Steps(strict, Addressing, r.trace) == (if r.ok then Writing else Ending)
      && r.trace != [] && r.trace[|r.trace| - 1].Sent? && r.trace[|r.trace| - 1].ack == r.ok
      && SentBytes(r.trace) <= [AddrByte(addr)] + w
      && (r.ok ==> SentBytes(r.trace) == [AddrByte(addr)] + w)
      && GotBytes(r.trace) == []
  {
    var a := dev.onAddr(s, AddrByte(addr));
    var r0 := Run(a.0, [Sent(AddrByte(addr), a.1)], a.1);
    SendStages(strict, dev, r0, AddrByte(addr), w, |w|);
    SendLast(dev, r0, AddrByte(addr), w, |w|);
    SendCarries(dev, r0, AddrByte(addr), w, |w|);
    assert w[..|w|] == w;
  }

  lemma Middle(strict: bool, a: seq<Event>, b: seq<Event>)
    ensures Steps(strict, Addressing, a + [Restart] + b)
      == Steps(strict, Step(strict, Steps(strict, Addressing, a), Restart), b)
    ensures SentBytes(a + [Restart] + b) == SentBytes(a) + SentBytes(b)
    ensures GotBytes(a + [Restart] + b) == GotBytes(a) + GotBytes(b)
  {
    Snoc(strict, Addressing, a, Restart);
    Concat(strict, Addressing, a + [Restart], b);
  }
}
