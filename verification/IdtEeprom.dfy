/** Reading and writing the EEPROM behind an IDT switch (cmds/asti2c/asti2c.go), over the I2C
    master. */
module IdtEeprom {
  import opened Bits
  import opened I2cMaster

  const EESIZE: nat := 0x1_0000
  const DEV: nat := 0x72

  // ---- The slave ----

  /** What the switch decides: how often it refuses transfers after its n-th query, whether it
      refuses at the command byte instead of at its address, and what it sends past a reply. */
  datatype Env = Env(refusals: nat -> nat, late: nat -> bool, filler: nat -> byte)

  /** The switch: its EEPROM, the reply to the last query, the bytes of the transfer under way,
      and how many more transfers it refuses. */
  datatype Idt = Idt(mem: seq<byte>, reply: seq<byte>, buf: seq<byte>, pos: nat, busy: nat, queries: nat)

  ghost predicate Resting(s: Idt) { |s.mem| == EESIZE && s.busy == 0 }

  function Cell(lo: byte, hi: byte): nat { lo + 0x100 * (hi as nat) }

  /** The two address bytes keep only the low 16 bits. */
  lemma CellOf(addr: word)
    ensures Cell(addr % 0x100, addr / 0x100 % 0x100) == addr % 0x1_0000
  {
  }

  /** A complete command takes effect at the stop condition. */
  function Execute(env: Env, s: Idt): Idt {
    if |s.buf| == 6 && s.buf[..4] == [0x47, 4, 1, 0] && Cell(s.buf[4], s.buf[5]) < |s.mem| then
      s.(reply := [5, 1, 0, s.buf[4], s.buf[5], s.mem[Cell(s.buf[4], s.buf[5])]],
      busy := env.refusals(s.queries), queries := s.queries + 1)
    else if |s.buf| == 7 && s.buf[..4] == [0x47, 5, 0, 0] && Cell(s.buf[4], s.buf[5]) < |s.mem| then
      s.(mem := s.mem[Cell(s.buf[4], s.buf[5]) := s.buf[6]])
    else s
  }

  function Refuse(s: Idt): (Idt, bool)
    requires s.busy > 0
  {
    (s.(buf := [], busy := s.busy - 1), false)
  }

  function OnAddr(env: Env, s: Idt, b: byte): (Idt, bool) {
    if b / 2 != 0x72 then (s, false)
    else if b % 2 == 1 then (s.(pos := 0), true)
    else if s.busy > 0 && !env.late(s.queries) then Refuse(s)
    else (s.(buf := []), true)
  }

  function OnWrite(s: Idt, b: byte): (Idt, bool) {
    if s.busy > 0 then Refuse(s) else (s.(buf := s.buf + [b]), true)
  }

  function ReplyByte(env: Env, s: Idt, k: nat): byte {
    if k < |s.reply| then s.reply[k] else env.filler(k)
  }

  function OnRead(env: Env, s: Idt): (Idt, byte) { (s.(pos := s.pos + 1), ReplyByte(env, s, s.pos)) }

  function OnStop(env: Env, s: Idt): Idt { Execute(env, s).(buf := []) }

  /** The slave on the bus is such a switch. */
  ghost predicate IsSwitch(dev: Slave<Idt>, env: Env) {
    && (forall s, b :: dev.onAddr(s, b) == OnAddr(env, s, b))
    && (forall s, b :: dev.onWrite(s, b) == OnWrite(s, b))
    && (forall s :: dev.onRead(s) == OnRead(env, s))
    && (forall s :: dev.onStop(s) == OnStop(env, s))
  }

  lemma SwitchExists(env: Env) returns (dev: Slave<Idt>)
    ensures IsSwitch(dev, env)
  {
    dev := Slave((s: Idt, b: byte) => OnAddr(env, s, b), (s: Idt, b: byte) => OnWrite(s, b),
    (s: Idt) => OnRead(env, s), (s: Idt) => OnStop(env, s));
  }

  // ---- The transfers ----

  lemma {:induction false} Delivered(dev: Slave<Idt>, env: Env, r0: Run<Idt>, w: seq<byte>, k: nat)
    requires IsSwitch(dev, env) && r0.ok && r0.s.busy == 0 && r0.s.buf == [] && k <= |w|
    ensures var r := SendRun(dev, r0, w, k); r.ok && r.s == r0.s.(buf := w[..k])
    decreases k
  {
    if k > 0 {
      Delivered(dev, env, r0, w, k - 1);
      assert w[..k] == w[..k - 1] + [w[k - 1]];
    }
  }

  /** A command sent to a switch at rest takes effect. */
  lemma CommandTx(dev: Slave<Idt>, env: Env, s: Idt, w: seq<byte>)
    requires IsSwitch(dev, env) && s.busy == 0 && w != []
    ensures var t := TxRun(dev, s, DEV, w, 0).0;
      t.ok && t.s == Execute(env, s.(buf := w)).(buf := [])
  {
    var a := dev.onAddr(s, AddrByte(DEV));
    Delivered(dev, env, Run(a.0, [Sent(AddrByte(DEV), a.1)], a.1), w, |w|);
    assert w[..|w|] == w;
  }

  lemma {:induction false} Replied(dev: Slave<Idt>, env: Env, s: Idt, n: nat, k: nat)
    requires IsSwitch(dev, env) && k <= n && s.pos == 0
    ensures var (r, data) := ReadRun(dev, s, n, k);
      r.s == s.(pos := k) && forall i :: 0 <= i < k ==> data[i] == ReplyByte(env, s, i)
    decreases k
  {
    if k > 0 { Replied(dev, env, s, n, k - 1); }
  }

  /** Asking for the reply: refused while the switch is busy, else the reply and filler. */
  lemma ReplyTx(dev: Slave<Idt>, env: Env, s: Idt)
    requires IsSwitch(dev, env)
    ensures var (t, data) := TxRun(dev, s, DEV, [0x47], 8);
      if s.busy > 0 then !t.ok && t.s == s.(buf := [], busy := s.busy - 1)
      else (t.ok && t.s == s.(buf := [], pos := 8) && |data| == 8
            && forall i :: 0 <= i < 8 ==> data[i] == ReplyByte(env, s, i))
  {
    var a := dev.onAddr(s, AddrByte(DEV));
    var r := WritePhase(dev, s, DEV, [0x47]);
    assert SendRun(dev, Run(a.0, [Sent(AddrByte(DEV), a.1)], a.1), [0x47], 0).s == a.0;
    if s.busy == 0 {
      var b := dev.onAddr(r.s, AddrByte(DEV) + 1);
      Replied(dev, env, b.0, 8, 8);
    }
  }

  // ---- The commands ----

  function Query(addr: word): (tx: seq<byte>)
    ensures |tx| == 6
  {
    [0x47, 4, 1, 0, addr % 0x100, addr / 0x100 % 0x100]
  }

  /** The switch after a query: the reply echoes it, and then has the byte. */
  ghost predicate Queried(env: Env, s0: Idt, s: Idt, addr: word)
    requires Resting(s0)
  {
    && s.mem == s0.mem && s.queries == s0.queries + 1 && s.busy == env.refusals(s0.queries)
    && s.reply == [5] + Query(addr)[2..] + [s0.mem[addr % 0x1_0000]]
  }

  lemma QueryTx(dev: Slave<Idt>, env: Env, s: Idt, addr: word)
    requires IsSwitch(dev, env) && Resting(s)
    ensures var t := TxRun(dev, s, DEV, Query(addr), 0).0;
      t.ok && Queried(env, s, t.s, addr)
  {
    CommandTx(dev, env, s, Query(addr));
    assert Query(addr)[..4] == [0x47, 4, 1, 0];
    CellOf(addr);
  }

  /** The read phase of `idt_eeread`: one refusal is forgiven. */
  method EeReply(bus: I2cBus<Idt>, env: Env, ghost s0: Idt, addr: word) returns (ok: bool, b: byte)
    requires IsSwitch(bus.m.dev, env) && bus.m.Quiet()
    requires Resting(s0) && Queried(env, s0, bus.m.s, addr)
    modifies bus, bus.m
    ensures ok <==> env.refusals(s0.queries) <= 1
    ensures ok ==> bus.m.Quiet() && b == s0.mem[addr % 0x1_0000]
    ensures ok ==> bus.m.s.mem == s0.mem && bus.m.s.busy == 0 && bus.m.s.queries == s0.queries + 1
  {
    var tx := Query(addr);
    var rbuf := new byte[8];
    var err;
    ReplyTx(bus.m.dev, env, bus.m.s);
    ok, err := bus.Tx(DEV, [0x47], rbuf);
    if err {
      ReplyTx(bus.m.dev, env, bus.m.s);
      ok, err := bus.Tx(DEV, [0x47], rbuf);
    }
    ok := ok && !err && rbuf[0] == 5 && rbuf[1] == tx[2] && rbuf[2] == tx[3]
      && rbuf[3] == tx[4] && rbuf[4] == tx[5];
    b := rbuf[5];
  }

  /** `idt_eeread`. `ok` is false where the program dies. */
  method EeRead(bus: I2cBus<Idt>, env: Env, addr: word) returns (ok: bool, b: byte)
    requires IsSwitch(bus.m.dev, env) && bus.m.Quiet() && Resting(bus.m.s)
    modifies bus, bus.m
    ensures ok <==> env.refusals(old(bus.m.s.queries)) <= 1
    ensures ok ==> bus.m.Quiet() && Resting(bus.m.s) && b == old(bus.m.s.mem)[addr % 0x1_0000]
    ensures ok ==> bus.m.s.mem == old(bus.m.s.mem) && bus.m.s.queries == old(bus.m.s.queries) + 1
  {
    ghost var s0 := bus.m.s;
    var none := new byte[0];
    var err;
    QueryTx(bus.m.dev, env, s0, addr);
    ok, err := bus.Tx(DEV, Query(addr), none);
    ok, b := ok && !err, 0;
    if ok { ok, b := EeReply(bus, env, s0, addr); }
  }

  function Burn(addr: word, b: byte): (tx: seq<byte>)
    ensures |tx| == 7
  {
    [0x47, 5, 0, 0, addr % 0x100, addr / 0x100 % 0x100, b]
  }

  lemma BurnTx(dev: Slave<Idt>, env: Env, s: Idt, addr: word, b: byte)
    requires IsSwitch(dev, env) && Resting(s)
    ensures var t := TxRun(dev, s, DEV, Burn(addr, b), 0).0;
      t.ok && t.s == s.(mem := s.mem[addr % 0x1_0000 := b], buf := [])
  {
    CommandTx(dev, env, s, Burn(addr, b));
    assert Burn(addr, b)[..4] == [0x47, 5, 0, 0];
    CellOf(addr);
  }

  /** `idt_eewrite`. */
  method EeWrite(bus: I2cBus<Idt>, env: Env, addr: word, b: byte) returns (ok: bool)
    requires IsSwitch(bus.m.dev, env) && bus.m.Quiet() && Resting(bus.m.s)
    modifies bus, bus.m
    ensures ok && bus.m.Quiet() && Resting(bus.m.s)
    ensures bus.m.s.mem == old(bus.m.s.mem)[addr % 0x1_0000 := b]
    ensures bus.m.s.queries == old(bus.m.s.queries)
  {
    var tx := Burn(addr, b);
    var none := new byte[0];
    var err;
    BurnTx(bus.m.dev, env, bus.m.s, addr, b);
    ok, err := bus.Tx(DEV, tx, none);
    ok := ok && !err;
  }

  /** The replies to queries `q..q+n` are refused at most once each. */
  ghost predicate Patient(env: Env, q: nat, n: nat) { forall k :: q <= k < q + n ==> env.refusals(k) <= 1 }

  /** `idtRead`: the first 1024 bytes. */
  method IdtRead(bus: I2cBus<Idt>, env: Env) returns (ok: bool, b: array<byte>)
    requires IsSwitch(bus.m.dev, env) && bus.m.Quiet() && Resting(bus.m.s)
    modifies bus, bus.m
    ensures b.Length == 1024 && fresh(b)
    ensures ok <==> Patient(env, old(bus.m.s.queries), 1024)
    ensures ok ==> bus.m.Quiet() && Resting(bus.m.s) && bus.m.s.mem == old(bus.m.s.mem)
    ensures ok ==> b[..] == old(bus.m.s.mem)[..1024]
  {
    b := new byte[1024];
    ok := true;
    ghost var q, mem := bus.m.s.queries, bus.m.s.mem;
    var i := 0;
    while ok && i < 1024
      invariant 0 <= i <= 1024
      invariant ok <==> Patient(env, q, i)
      invariant ok ==> bus.m.Quiet() && Resting(bus.m.s) && bus.m.s.mem == mem && bus.m.s.queries == q + i
      invariant ok ==> b[..i] == mem[..i]
    {
      var c;
      ok, c := EeRead(bus, env, i);
      b[i] := c;
      i := i + 1;
    }
  }

  /** `idtWrite`. */
  method IdtWrite(bus: I2cBus<Idt>, env: Env, b: seq<byte>) returns (ok: bool)
    requires IsSwitch(bus.m.dev, env) && bus.m.Quiet() && Resting(bus.m.s)
    modifies bus, bus.m
    ensures ok && bus.m.Quiet() && Resting(bus.m.s)
    ensures bus.m.s.mem == Burned(old(bus.m.s.mem), b, |b|)
    ensures bus.m.s.queries == old(bus.m.s.queries)
  {
    ok := true;
    ghost var q, mem := bus.m.s.queries, bus.m.s.mem;
    var i := 0;
    while ok && i < |b|
      invariant i <= |b| && ok && bus.m.Quiet() && Resting(bus.m.s)
      invariant bus.m.s.mem == Burned(mem, b, i) && bus.m.s.queries == q
    {
      ok := EeWrite(bus, env, U32(i), b[i]);
      i := i + 1;
    }
  }

  /** The EEPROM after `b[..n]` was written in order, at addresses modulo its size. */
  function Burned(mem: seq<byte>, b: seq<byte>, n: nat): (r: seq<byte>)
    requires |mem| == EESIZE && n <= |b|
    ensures |r| == EESIZE
  {
    if n == 0 then mem else Burned(mem, b, n - 1)[(n - 1) % EESIZE := b[n - 1]]
  }

  /** The last of the first `n` bytes that lands on address `a`. */
  function LastAt(n: nat, a: nat): (k: nat)
    requires a < n && a < EESIZE
    ensures k < n && k % EESIZE == a && n - k <= EESIZE
  {
    (n - 1 - a) / EESIZE * EESIZE + a
  }

  lemma {:induction false} BurnedAt(mem: seq<byte>, b: seq<byte>, n: nat, a: nat)
    requires |mem| == EESIZE && n <= |b| && a < EESIZE
    ensures Burned(mem, b, n)[a] == if a < n then b[LastAt(n, a)] else mem[a]
    decreases n
  {
    if n > 0 {
      BurnedAt(mem, b, n - 1, a);
      if (n - 1) % EESIZE == a {
        assert LastAt(n, a) == n - 1;
      } else if a < n - 1 {
        assert LastAt(n, a) == LastAt(n - 1, a);
      }
    }
  }

  /** `idtWrite`, then `idtRead`: what is read is the written bytes on the common prefix, as long
      as they fit the 16-bit addresses, and the old contents after it. Longer input wraps around,
      and the last byte for an address wins. */
  method WriteThenRead(bus: I2cBus<Idt>, env: Env, b: seq<byte>) returns (ok: bool, r: array<byte>)
    requires IsSwitch(bus.m.dev, env) && bus.m.Quiet() && Resting(bus.m.s)
    modifies bus, bus.m
    ensures r.Length == 1024
    ensures ok <==> Patient(env, old(bus.m.s.queries), 1024)
    ensures ok && |b| <= EESIZE ==> forall a :: 0 <= a < 1024 ==>
      r[a] == if a < |b| then b[a] else old(bus.m.s.mem)[a]
    ensures ok && |b| > EESIZE ==> forall a :: 0 <= a < 1024 ==> r[a] == b[LastAt(|b|, a)]
  {
    ghost var mem := bus.m.s.mem;
    ok := IdtWrite(bus, env, b);
    ok, r := IdtRead(bus, env);
    forall a | 0 <= a < 1024
      ensures Burned(mem, b, |b|)[a] == if a < |b| then b[LastAt(|b|, a)] else mem[a]
    {
      BurnedAt(mem, b, |b|, a);
    }
  }
}
