/** Goroutines sharing one bridge: every interleaving of `AstMem` accesses is one sequence of
    atomic accesses to a flat 32-bit bus (ast/p2a.go). The bus is any state machine `step`. */
module P2aThreads {
  import opened Bits
  import opened Outcomes
  import opened BmcBus
  import opened P2a

  /** Where a goroutine stands in its current `AstMem` call. */
  datatype Pc =
    | Idle                 // between calls
    | Blocked              // called, at `m.Lock()`
    | Checking             // lock held, about to compare `f004`
    | PageSet              // 0xf004 written
    | EnableSet            // 0xf000 written
    | Ready                // `setIndex` done
    | Accessed(val: word)  // window accessed, about to unlock

  /** A goroutine with the flat accesses it will make. `results` are the values its calls
      returned; `began[i]` and `ended[i]` say how many accesses the bus had seen when its call
      `i` was made and when it returned. */
  datatype Thread = Thread(prog: seq<BusOp>, pc: Pc, results: seq<word>, began: seq<nat>, ended: seq<nat>)
  {
    function Done(): nat { |results| }
    predicate Critical() { !pc.Idle? && !pc.Blocked? }
  }

  /** One access as the bus saw it. */
  datatype Event = Event(tid: nat, op: BusOp, val: word)

  datatype Config<S> = Config(threads: seq<Thread>, holder: Option<nat>, f004: word,
                              page: word, enable: word, mem: S, trace: seq<Event>)

  /** The same access at another address. */
  function At(op: BusOp, addr: word): BusOp {
    match op
    case R32(_) => R32(addr)
    case R8(_) => R8(addr)
    case W32(_, v) => W32(addr, v)
    case W8(_, v) => W8(addr, v)
  }

  /** A flat access. With NoWrite, words and bytes written are dropped. */
  function FlatStep<S>(step: (S, BusOp) -> (S, word), noWrite: bool, mem: S, op: BusOp): (S, word) {
    match op
    case R32(_) => step(mem, op)
    case R8(_) => step(mem, op)
    case W32(_, _) => if noWrite then (mem, 0) else step(mem, op)
    case W8(_, _) => if noWrite then (mem, 0) else step(mem, op)
  }

  /** An access through the window, wherever it points. */
  function WindowStep<S>(step: (S, BusOp) -> (S, word), noWrite: bool, c: Config<S>, op: BusOp): (S, word) {
    if noWrite && op.IsWrite() then (c.mem, 0)
    else if c.enable == 1 then step(c.mem, At(op, WindowAddr(c.page, PAGE + op.addr % PAGE)))
    else (c.mem, 0)
  }

  /** One step of goroutine `t`. */
  function Next<S>(step: (S, BusOp) -> (S, word), noWrite: bool, c: Config<S>, t: nat): Config<S> {
    if t >= |c.threads| then c
    else
      var th := c.threads[t];
      if th.Done() >= |th.prog| then c
      else
        var op := th.prog[th.Done()];
        match th.pc
        case Idle => c.(threads := c.threads[t := th.(pc := Blocked, began := th.began + [|c.trace|])])
        case Blocked =>
          if c.holder.Some? then c
          else c.(holder := Some(t), threads := c.threads[t := th.(pc := Checking)])
        case Checking =>
          if c.f004 == PageOf(op.addr) then c.(threads := c.threads[t := th.(pc := Ready)])
          else c.(page := PageOf(op.addr), threads := c.threads[t := th.(pc := PageSet)])
        case PageSet => c.(enable := 1, threads := c.threads[t := th.(pc := EnableSet)])
        case EnableSet => c.(f004 := PageOf(op.addr), threads := c.threads[t := th.(pc := Ready)])
        case Ready =>
          var r := WindowStep(step, noWrite, c, op);
          c.(mem := r.0, trace := c.trace + [Event(t, op, r.1)],
             threads := c.threads[t := th.(pc := Accessed(r.1))])
        case Accessed(v) =>
          c.(holder := None, threads := c.threads[t := th.(
            pc := Idle, results := th.results + [v], ended := th.ended + [|c.trace|])])
  }

  function Run<S>(step: (S, BusOp) -> (S, word), noWrite: bool, c: Config<S>, schedule: seq<nat>): Config<S> {
    if schedule == [] then c
    else Next(step, noWrite, Run(step, noWrite, c, schedule[..|schedule| - 1]), schedule[|schedule| - 1])
  }

  /** Program start: nobody has called anything, and the cache is empty; the bridge's registers
      hold whatever was left in them. */
  ghost predicate Initial<S>(c: Config<S>) {
    && c.holder == None && c.f004 == 0 && c.trace == []
    && forall t :: 0 <= t < |c.threads| ==>
         c.threads[t] == Thread(c.threads[t].prog, Idle, [], [], [])
  }

  /** From call `i` on a goroutine's first access that is made at all goes to page 0, the one page
      an empty cache is mistaken for. (With NoWrite, writes are not made.) */
  predicate Exposed(noWrite: bool, prog: seq<BusOp>, i: nat)
    decreases |prog| - i
  {
    && i < |prog| && PageOf(prog[i].addr) == 0
    && (noWrite && prog[i].IsWrite() ==> Exposed(noWrite, prog, i + 1))
  }

  /** What a caller can check before the start: the window already shows page 0, or no goroutine
      begins there. */
  ghost predicate Warm<S>(noWrite: bool, c: Config<S>) {
    || (c.enable == 1 && c.page < PAGE)
    || forall t :: 0 <= t < |c.threads| ==> !Exposed(noWrite, c.threads[t].prog, 0)
  }

  /** The flat memory after the events so far. */
  function FlatState<S>(step: (S, BusOp) -> (S, word), noWrite: bool, mem0: S, trace: seq<Event>): S {
    if trace == [] then mem0
    else FlatStep(step, noWrite, FlatState(step, noWrite, mem0, trace[..|trace| - 1]), trace[|trace| - 1].op).0
  }

  /** The events are a run of the flat memory: each returned what a flat access returns. */
  ghost predicate FlatRun<S>(step: (S, BusOp) -> (S, word), noWrite: bool, mem0: S, trace: seq<Event>) {
    forall k :: 0 <= k < |trace| ==>
      trace[k].val == FlatStep(step, noWrite, FlatState(step, noWrite, mem0, trace[..k]), trace[k].op).1
  }

  /** The accesses of goroutine `t`, in order. */
  function Of(trace: seq<Event>, t: nat): seq<(BusOp, word)> {
    if trace == [] then []
    else
      var e := trace[|trace| - 1];
      Of(trace[..|trace| - 1], t) + if e.tid == t then [(e.op, e.val)] else []
  }

  // ---- What every step keeps ----

  /** Mutual exclusion, and the bookkeeping of calls. */
  ghost predicate Locked<S>(c: Config<S>) {
    && (c.holder.Some? ==> c.holder.value < |c.threads|)
    && forall t :: 0 <= t < |c.threads| ==>
      var th := c.threads[t];
      && (th.Critical() <==> c.holder == Some(t))
      && th.Done() <= |th.prog| && (!th.pc.Idle? ==> th.Done() < |th.prog|)
      && |th.ended| == th.Done() && |th.began| == th.Done() + if th.pc.Idle? then 0 else 1
  }

  /** The window shows the page that the cache names. */
  ghost predicate Truthful<S>(c: Config<S>) { c.page - c.page % PAGE == c.f004 && c.enable == 1 }

  /** The cache is empty, and no goroutine is about to be misled by it. */
  ghost predicate Cold<S>(noWrite: bool, c: Config<S>) {
    c.f004 == 0 && forall t :: 0 <= t < |c.threads| ==>
      !Exposed(noWrite, c.threads[t].prog, c.threads[t].Done())
  }

  /** The cache is cold or tells the truth, except between the writes of `setIndex`, where the lock
      holder knows what it has written. */
  ghost predicate Cached<S>(noWrite: bool, c: Config<S>)
    requires Locked(c)
  {
    if c.holder == None then Truthful(c) || Cold(noWrite, c)
    else
      var th := c.threads[c.holder.value];
      var op := th.prog[th.Done()];
      match th.pc
      case PageSet => c.page == PageOf(op.addr)
      case EnableSet => c.page == PageOf(op.addr) && c.enable == 1
      case Ready =>
        || (Truthful(c) && c.f004 == PageOf(op.addr))
        || (Cold(noWrite, c) && PageOf(op.addr) == 0 && noWrite && op.IsWrite())
      case Accessed(_) => Truthful(c) || (Cold(noWrite, c) && PageOf(op.addr) == 0 && noWrite && op.IsWrite())
      case _ => Truthful(c) || Cold(noWrite, c)
  }

  /** The bus trace is a flat run that ends in the present memory. */
  ghost predicate Flat<S>(step: (S, BusOp) -> (S, word), noWrite: bool, mem0: S, c: Config<S>) {
    c.mem == FlatState(step, noWrite, mem0, c.trace) && FlatRun(step, noWrite, mem0, c.trace)
  }

  /** Goroutine `t`'s calls appear in the trace once each, in order, with the values returned. */
  ghost predicate InOrder<S>(c: Config<S>, t: nat)
    requires t < |c.threads|
  {
    var th := c.threads[t];
    var vals := th.results + if th.pc.Accessed? then [th.pc.val] else [];
    && |vals| <= |th.prog|
    && Of(c.trace, t) == seq(|vals|, i requires 0 <= i < |vals| => (th.prog[i], vals[i]))
  }

  /** Each event falls between the call and the return it belongs to. */
  ghost predicate InTime<S>(c: Config<S>, k: nat)
    requires k < |c.trace|
  {
    var t := c.trace[k].tid;
    var i := |Of(c.trace[..k], t)|;
    && t < |c.threads|
    && i < |c.threads[t].began| && c.threads[t].began[i] <= k
    && (i < |c.threads[t].ended| ==> k < c.threads[t].ended[i])
  }

  lemma LockedNext<S>(step: (S, BusOp) -> (S, word), noWrite: bool, c: Config<S>, t: nat)
    requires Locked(c)
    ensures Locked(Next(step, noWrite, c, t)) && |Next(step, noWrite, c, t).threads| == |c.threads|
  {
  }

  lemma CachedNext<S>(step: (S, BusOp) -> (S, word), noWrite: bool, c: Config<S>, t: nat)
    requires Locked(c) && Cached(noWrite, c)
    requires Locked(Next(step, noWrite, c, t))
    ensures Cached(noWrite, Next(step, noWrite, c, t))
  {
    PagesAligned();
  }

  lemma PagesAligned()
    ensures forall addr: nat :: PageOf(addr) - PageOf(addr) % PAGE == PageOf(addr)
  {
    forall addr: nat ensures PageOf(addr) - PageOf(addr) % PAGE == PageOf(addr) {
      WindowIsFlat(addr);
    }
  }

  /** Under the lock, with the page shown, the window access is the flat access. */
  lemma AccessIsFlat<S>(step: (S, BusOp) -> (S, word), noWrite: bool, c: Config<S>, op: BusOp)
    requires c.page - c.page % PAGE == PageOf(op.addr) && c.enable == 1
    ensures WindowStep(step, noWrite, c, op) == FlatStep(step, noWrite, c.mem, op)
  {
    WindowShows(c.page, op.addr);
    SameAccess(op);
  }

  lemma SameAccess(op: BusOp)
    ensures At(op, op.addr) == op
  {
  }

  /** A window on the page of `addr` shows it. */
  lemma WindowShows(page: word, addr: word)
    requires page - page % PAGE == PageOf(addr)
    ensures WindowAddr(page, PAGE + addr % PAGE) == addr
  {
    WindowIsFlat(addr);
    var p: word, off: nat := PageOf(addr), PAGE + addr % PAGE;
    assert p % PAGE == 0;
    SameWindow(page, p, off);
  }

  lemma SameWindow(page: word, p: word, off: nat)
    requires page - page % PAGE == p - p % PAGE
    ensures WindowAddr(page, off) == WindowAddr(p, off)
  {
  }

  lemma FlatNext<S>(step: (S, BusOp) -> (S, word), noWrite: bool, mem0: S, c: Config<S>, t: nat)
    requires Locked(c) && Cached(noWrite, c) && Flat(step, noWrite, mem0, c)
    ensures Flat(step, noWrite, mem0, Next(step, noWrite, c, t))
  {
    if t < |c.threads| && c.threads[t].pc.Ready? {
      var th := c.threads[t];
      assert c.holder == Some(t);
      var op := th.prog[th.Done()];
      if Truthful(c) && c.f004 == PageOf(op.addr) { AccessIsFlat(step, noWrite, c, op); }
      FlatGrows(step, noWrite, mem0, c.mem, c.trace, Event(t, op, WindowStep(step, noWrite, c, op).1));
    }
  }

  lemma FlatGrows<S>(step: (S, BusOp) -> (S, word), noWrite: bool, mem0: S, mem: S, trace: seq<Event>, e: Event)
    requires mem == FlatState(step, noWrite, mem0, trace) && FlatRun(step, noWrite, mem0, trace)
    requires e.val == FlatStep(step, noWrite, mem, e.op).1
    ensures FlatState(step, noWrite, mem0, trace + [e]) == FlatStep(step, noWrite, mem, e.op).0
    ensures FlatRun(step, noWrite, mem0, trace + [e])
  {
    var more := trace + [e];
    assert more[..|trace|] == trace;
    forall k | 0 <= k < |more|
      ensures more[k].val == FlatStep(step, noWrite, FlatState(step, noWrite, mem0, more[..k]), more[k].op).1
    {
      if k < |trace| { assert more[..k] == trace[..k]; }
    }
  }

  lemma OrderNext<S>(step: (S, BusOp) -> (S, word), noWrite: bool, c: Config<S>, t: nat, u: nat)
    requires Locked(c) && u < |c.threads| && InOrder(c, u)
    requires Locked(Next(step, noWrite, c, t))
    ensures InOrder(Next(step, noWrite, c, t), u)
  {
    if u == t { OrderOwn(step, noWrite, c, t); } else { OrderOther(step, noWrite, c, t, u); }
  }

  lemma OrderOther<S>(step: (S, BusOp) -> (S, word), noWrite: bool, c: Config<S>, t: nat, u: nat)
    requires u < |c.threads| && InOrder(c, u) && u != t
    ensures u < |Next(step, noWrite, c, t).threads| && InOrder(Next(step, noWrite, c, t), u)
  {
    var c' := Next(step, noWrite, c, t);
    assert c'.threads[u] == c.threads[u];
    if c'.trace != c.trace {
      OfGrows(c.trace, c'.trace[|c.trace|], u);
      assert c'.trace == c.trace + [c'.trace[|c.trace|]];
    }
  }

  lemma OrderOwn<S>(step: (S, BusOp) -> (S, word), noWrite: bool, c: Config<S>, t: nat)
    requires Locked(c) && t < |c.threads| && InOrder(c, t)
    requires Locked(Next(step, noWrite, c, t))
    ensures InOrder(Next(step, noWrite, c, t), t)
  {
    var th, c' := c.threads[t], Next(step, noWrite, c, t);
    if th.Done() < |th.prog| && th.pc.Ready? {
      var e := c'.trace[|c.trace|];
      OfGrows(c.trace, e, t);
      assert th.results + [] == th.results;
      assert e == Event(t, th.prog[th.Done()], e.val);
    }
  }

  lemma OfGrows(trace: seq<Event>, e: Event, u: nat)
    ensures Of(trace + [e], u) == Of(trace, u) + if e.tid == u then [(e.op, e.val)] else []
  {
    assert (trace + [e])[..|trace|] == trace;
  }

  /** No call is recorded as beginning in the future. */
  ghost predicate BeganBefore<S>(c: Config<S>) {
    forall t, i :: 0 <= t < |c.threads| && 0 <= i < |c.threads[t].began| ==>
      c.threads[t].began[i] <= |c.trace|
  }

  lemma BeganNext<S>(step: (S, BusOp) -> (S, word), noWrite: bool, c: Config<S>, t: nat)
    requires BeganBefore(c)
    ensures BeganBefore(Next(step, noWrite, c, t))
  {
  }

  /** Recorded times only grow at the end. */
  lemma TimesGrow<S>(step: (S, BusOp) -> (S, word), noWrite: bool, c: Config<S>, t: nat, u: nat)
    requires u < |c.threads|
    ensures var v, v' := c.threads[u], Next(step, noWrite, c, t).threads[u];
      && v.began <= v'.began
      && (v'.ended == v.ended || v'.ended == v.ended + [|c.trace|])
  {
  }

  lemma TimeNext<S>(step: (S, BusOp) -> (S, word), noWrite: bool, c: Config<S>, t: nat, k: nat)
    requires Locked(c) && k < |Next(step, noWrite, c, t).trace|
    requires forall u :: 0 <= u < |c.threads| ==> InOrder(c, u)
    requires BeganBefore(c) && (k < |c.trace| ==> InTime(c, k))
    ensures InTime(Next(step, noWrite, c, t), k)
  {
    var c' := Next(step, noWrite, c, t);
    if k < |c.trace| {
      assert c'.trace[..k] == c.trace[..k] && c'.trace[k] == c.trace[k];
      TimesGrow(step, noWrite, c, t, c.trace[k].tid);
    } else {
      assert c'.trace[..k] == c.trace && InOrder(c, t);
      assert |Of(c.trace, t)| == c.threads[t].Done();
    }
  }

  // ---- Over whole runs ----

  ghost predicate Good<S>(step: (S, BusOp) -> (S, word), noWrite: bool, mem0: S, c: Config<S>) {
    && Locked(c) && Cached(noWrite, c) && BeganBefore(c) && Flat(step, noWrite, mem0, c)
    && (forall t :: 0 <= t < |c.threads| ==> InOrder(c, t))
    && (forall k :: 0 <= k < |c.trace| ==> InTime(c, k))
  }

  lemma GoodNext<S>(step: (S, BusOp) -> (S, word), noWrite: bool, mem0: S, c: Config<S>, t: nat)
    requires Good(step, noWrite, mem0, c)
    ensures Good(step, noWrite, mem0, Next(step, noWrite, c, t))
  {
    var c' := Next(step, noWrite, c, t);
    LockedNext(step, noWrite, c, t);
    CachedNext(step, noWrite, c, t);
    BeganNext(step, noWrite, c, t);
    FlatNext(step, noWrite, mem0, c, t);
    forall u | 0 <= u < |c'.threads| ensures InOrder(c', u) {
      OrderNext(step, noWrite, c, t, u);
    }
    forall k | 0 <= k < |c'.trace| ensures InTime(c', k) {
      TimeNext(step, noWrite, c, t, k);
    }
  }

  /** Every interleaving keeps all of it. */
  lemma {:induction false} GoodRun<S>(step: (S, BusOp) -> (S, word), noWrite: bool, c0: Config<S>, schedule: seq<nat>)
    requires Initial(c0) && Warm(noWrite, c0)
    ensures Good(step, noWrite, c0.mem, Run(step, noWrite, c0, schedule))
    decreases |schedule|
  {
    if schedule != [] {
      var init := schedule[..|schedule| - 1];
      GoodRun(step, noWrite, c0, init);
      GoodNext(step, noWrite, c0.mem, Run(step, noWrite, c0, init), schedule[|schedule| - 1]);
    }
  }

  // ---- Runs with and without writes ----

  /** `step` leaves the memory alone for reads. */
  ghost predicate ReadsOnly<S(!new)>(step: (S, BusOp) -> (S, word)) {
    forall mem: S, op: BusOp :: op.R32? || op.R8? ==> step(mem, op).0 == mem
  }

  /** With NoWrite, whatever the schedule and wherever the window points, no write reaches the
      memory, and none is seen to return anything. */
  lemma {:induction false} DryRun<S(!new)>(step: (S, BusOp) -> (S, word), c0: Config<S>, schedule: seq<nat>)
    requires Initial(c0) && ReadsOnly(step)
    ensures var c := Run(step, true, c0, schedule);
      && c.mem == c0.mem
      && forall k :: 0 <= k < |c.trace| && (c.trace[k].op.W32? || c.trace[k].op.W8?) ==> c.trace[k].val == 0
    decreases |schedule|
  {
    if schedule != [] {
      var init := schedule[..|schedule| - 1];
      DryRun(step, c0, init);
      DryNext(step, Run(step, true, c0, init), schedule[|schedule| - 1]);
    }
  }

  lemma DryNext<S(!new)>(step: (S, BusOp) -> (S, word), c: Config<S>, t: nat)
    requires ReadsOnly(step)
    ensures var c' := Next(step, true, c, t);
      && c'.mem == c.mem
      && (c'.trace == c.trace
          || (|c'.trace| == |c.trace| + 1 && c'.trace[..|c.trace|] == c.trace
              && var e := c'.trace[|c.trace|]; e.op.W32? || e.op.W8? ==> e.val == 0))
  {
  }

  /** The accesses `ops`, one after the other, all of them made. */
  function Replay<S>(step: (S, BusOp) -> (S, word), mem: S, trace: seq<Event>): S {
    if trace == [] then mem else step(Replay(step, mem, trace[..|trace| - 1]), trace[|trace| - 1].op).0
  }

  /** Without NoWrite every access reaches the memory, writes of bytes as of words. */
  lemma {:induction false} WetTrace<S>(step: (S, BusOp) -> (S, word), mem0: S, trace: seq<Event>)
    ensures FlatState(step, false, mem0, trace) == Replay(step, mem0, trace)
    decreases |trace|
  {
    if trace != [] { WetTrace(step, mem0, trace[..|trace| - 1]); }
  }

  lemma WetRun<S>(step: (S, BusOp) -> (S, word), c0: Config<S>, schedule: seq<nat>)
    requires Initial(c0) && Warm(false, c0)
    ensures var c := Run(step, false, c0, schedule);
      && c.mem == Replay(step, c0.mem, c.trace)
      && forall k :: 0 <= k < |c.trace| ==>
           c.trace[k].val == step(Replay(step, c0.mem, c.trace[..k]), c.trace[k].op).1
  {
    GoodRun(step, false, c0, schedule);
    var c := Run(step, false, c0, schedule);
    WetTrace(step, c0.mem, c.trace);
    forall k | 0 <= k < |c.trace|
      ensures c.trace[k].val == step(Replay(step, c0.mem, c.trace[..k]), c.trace[k].op).1
    {
      WetTrace(step, c0.mem, c.trace[..k]);
    }
  }

  /** A byte written by the only goroutine of a program does reach the device: the seventh step of its
      call is behind the access. */
  lemma ByteWritten<S>(step: (S, BusOp) -> (S, word), c0: Config<S>, addr: word, val: byte)
    requires Initial(c0) && |c0.threads| == 1 && c0.threads[0].prog == [W8(addr, val)] && addr >= 0x1_0000
    ensures Run(step, false, c0, [0, 0, 0, 0, 0, 0, 0]).mem == step(c0.mem, W8(addr, val)).0
    ensures Run(step, true, c0, [0, 0, 0, 0, 0, 0, 0]).mem == c0.mem
  {
    SoloRun(step, false, c0, W8(addr, val));
    SoloRun(step, true, c0, W8(addr, val));
  }

  /** The only access of the only goroutine, made outside page 0. */
  lemma SoloRun<S>(step: (S, BusOp) -> (S, word), noWrite: bool, c0: Config<S>, op: BusOp)
    requires Initial(c0) && |c0.threads| == 1 && c0.threads[0].prog == [op] && op.addr >= 0x1_0000
    ensures Run(step, noWrite, c0, [0, 0, 0, 0, 0, 0, 0]).mem == FlatStep(step, noWrite, c0.mem, op).0
  {
    var c5 := WindowOpened(step, noWrite, c0, op);
    RunMore(step, noWrite, c0, [0, 0, 0, 0, 0], 0);
    RunMore(step, noWrite, c0, [0, 0, 0, 0, 0, 0], 0);
    assert [0, 0, 0, 0, 0] + [0] == [0, 0, 0, 0, 0, 0] && [0, 0, 0, 0, 0, 0] + [0] == [0, 0, 0, 0, 0, 0, 0];
    AccessIsFlat(step, noWrite, c5, op);
  }

  /** Its state, before the access. */
  function Alone<S>(c0: Config<S>, op: BusOp, pc: Pc): Config<S> {
    c0.(holder := Some(0), threads := [Thread([op], pc, [], [0], [])])
  }

  lemma LockTaken<S>(step: (S, BusOp) -> (S, word), noWrite: bool, c0: Config<S>, op: BusOp)
    requires Initial(c0) && |c0.threads| == 1 && c0.threads[0].prog == [op]
    ensures Next(step, noWrite, Next(step, noWrite, c0, 0), 0) == Alone(c0, op, Checking)
  {
    var th := c0.threads[0];
    assert th == Thread([op], Idle, [], [], []);
    assert th.began + [|c0.trace|] == [0];
    var c1 := Next(step, noWrite, c0, 0);
    assert c1.threads == [Thread([op], Blocked, [], [0], [])];
  }

  lemma WindowMoved<S>(step: (S, BusOp) -> (S, word), noWrite: bool, c0: Config<S>, op: BusOp, p: word)
    requires c0.f004 == 0 && PageOf(op.addr) == p != 0
    ensures var c3 := Next(step, noWrite, Alone(c0, op, Checking), 0);
      && c3 == Alone(c0.(page := p), op, PageSet)
      && Next(step, noWrite, c3, 0) == Alone(c0.(page := p, enable := 1), op, EnableSet)
  {
  }

  lemma CacheFilled<S>(step: (S, BusOp) -> (S, word), noWrite: bool, c0: Config<S>, op: BusOp, p: word)
    requires PageOf(op.addr) == p
    ensures Next(step, noWrite, Alone(c0, op, EnableSet), 0) == Alone(c0.(f004 := p), op, Ready)
  {
  }

  lemma WindowOpened<S>(step: (S, BusOp) -> (S, word), noWrite: bool, c0: Config<S>, op: BusOp)
    returns (c: Config<S>)
    requires Initial(c0) && |c0.threads| == 1 && c0.threads[0].prog == [op] && op.addr >= 0x1_0000
    ensures c == Run(step, noWrite, c0, [0, 0, 0, 0, 0])
    ensures c.page - c.page % PAGE == PageOf(op.addr) && c.enable == 1 && c.mem == c0.mem
    ensures |c.threads| == 1 && c.threads[0].prog == [op] && c.threads[0].Done() == 0 && c.threads[0].pc.Ready?
  {
    var p := PageOf(op.addr);
    assert p != 0 by { assert op.addr % PAGE < op.addr && U32(op.addr) == op.addr; }
    PagesAligned();
    LockTaken(step, noWrite, c0, op);
    WindowMoved(step, noWrite, c0, op, p);
    CacheFilled(step, noWrite, c0.(page := p, enable := 1), op, p);
    c := Alone(c0.(page := p, enable := 1, f004 := p), op, Ready);
    FiveSteps(step, noWrite, c0);
  }

  lemma FiveSteps<S>(step: (S, BusOp) -> (S, word), noWrite: bool, c: Config<S>)
    ensures Run(step, noWrite, c, [0, 0, 0, 0, 0]) == Next(step, noWrite, Next(step, noWrite, Next(step, noWrite,
      Next(step, noWrite, Next(step, noWrite, c, 0), 0), 0), 0), 0)
  {
    RunMore(step, noWrite, c, [0, 0, 0], 0);
    RunMore(step, noWrite, c, [0, 0, 0, 0], 0);
    assert [0, 0, 0] + [0] == [0, 0, 0, 0] && [0, 0, 0, 0] + [0] == [0, 0, 0, 0, 0];
    RunThree(step, noWrite, c, 0);
  }

  /** The position in the trace of goroutine `t`'s access number `i`. */
  ghost function Position(trace: seq<Event>, t: nat, i: nat): (k: nat)
    requires i < |Of(trace, t)|
    ensures k < |trace| && trace[k].tid == t && |Of(trace[..k], t)| == i
    ensures (trace[k].op, trace[k].val) == Of(trace, t)[i]
  {
    var last := trace[..|trace| - 1];
    if i < |Of(last, t)| then
      var k := Position(last, t, i);
      assert last[..k] == trace[..k];
      k
    else |trace| - 1
  }

  /** A call that has returned stands in the trace: the access asked for, the value returned. */
  ghost predicate Returned<S>(c: Config<S>, t: nat, i: nat) {
    t < |c.threads| && i < |c.threads[t].results| ==>
      && i < |c.threads[t].prog| && i < |Of(c.trace, t)|
      && Of(c.trace, t)[i] == (c.threads[t].prog[i], c.threads[t].results[i])
  }

  /** If call `i` of `t` returned before call `j` of `u` began, its access came first. */
  ghost predicate Ordered<S>(c: Config<S>, t: nat, i: nat, u: nat, j: nat) {
    && t < |c.threads| && i < |c.threads[t].ended| && u < |c.threads| && j < |c.threads[u].began|
    && i < |Of(c.trace, t)| && j < |Of(c.trace, u)|
    && c.threads[t].ended[i] <= c.threads[u].began[j]
    ==> Position(c.trace, t, i) < Position(c.trace, u, j)
  }

  /**
   Linearizability. At any moment of any run the accesses made so far form one sequential run
   of the flat memory, ending in its present state; a call that has returned stands in it with
   the access it was asked for and the value it returned; and a call that returned before
   another began stands before it.
   */
  lemma Linearizable<S>(step: (S, BusOp) -> (S, word), noWrite: bool, c0: Config<S>, schedule: seq<nat>)
    requires Initial(c0) && Warm(noWrite, c0)
    ensures var c := Run(step, noWrite, c0, schedule);
      && c.mem == FlatState(step, noWrite, c0.mem, c.trace)
      && FlatRun(step, noWrite, c0.mem, c.trace)
      && (forall t, i :: Returned(c, t, i))
      && (forall t, i, u, j :: Ordered(c, t, i, u, j))
  {
    GoodRun(step, noWrite, c0, schedule);
    var c := Run(step, noWrite, c0, schedule);
    forall t: nat, i: nat ensures Returned(c, t, i) {
      if t < |c.threads| && i < |c.threads[t].results| { assert InOrder(c, t); }
    }
    forall t: nat, i: nat, u: nat, j: nat ensures Ordered(c, t, i, u, j) {
      if t < |c.threads| && u < |c.threads| && i < |Of(c.trace, t)| && j < |Of(c.trace, u)| {
        assert InTime(c, Position(c.trace, t, i)) && InTime(c, Position(c.trace, u, j));
      }
    }
  }

  // ---- Page 0 ----

  /** With an empty cache the access to page 0 goes to its address exactly if the window shows page
      0 already. */
  lemma PageZeroExact<S>(step: (S, BusOp) -> (S, word), noWrite: bool, c: Config<S>, t: nat)
    requires Locked(c) && t < |c.threads| && c.threads[t].pc.Checking? && c.f004 == 0
    requires PageOf(c.threads[t].prog[c.threads[t].Done()].addr) == 0
    ensures var c' := Next(step, noWrite, c, t);
      c' == c.(threads := c.threads[t := c.threads[t].(pc := Ready)])
    ensures var op := c.threads[t].prog[c.threads[t].Done()];
      (c.enable == 1 && WindowAddr(c.page, PAGE + op.addr % PAGE) == op.addr) <==> (c.enable == 1 && c.page < PAGE)
  {
    StrayAddress(c.page, c.threads[t].prog[c.threads[t].Done()].addr);
  }

  lemma StrayAddress(page: word, addr: word)
    requires PageOf(addr) == 0
    ensures addr < PAGE
    ensures WindowAddr(page, PAGE + addr % PAGE) == addr <==> page < PAGE
  {
    var base := page - page % PAGE;
    assert addr == addr % PAGE;
    assert page >= PAGE ==> base >= PAGE;
    assert base <= 0xffff_0000;
  }

  /** A memory whose words are one more than their addresses. */
  function Witness<S>(mem: S, op: BusOp): (S, word) { (mem, U32(op.addr + 1)) }

  /** Goroutine `t` is about to be misled: the lock is free, the cache empty, and the window does not
      show page 0. */
  ghost predicate Astray<S>(noWrite: bool, c: Config<S>, t: nat) {
    && c.holder == None && c.f004 == 0 && !(c.enable == 1 && c.page < PAGE)
    && t < |c.threads| && c.threads[t].pc.Idle? && Exposed(noWrite, c.threads[t].prog, c.threads[t].Done())
  }

  /** A whole call of goroutine `t` to page 0, with nobody in between. */
  function Call<S>(step: (S, BusOp) -> (S, word), noWrite: bool, c: Config<S>, t: nat): Config<S>
    requires t < |c.threads| && c.threads[t].Done() < |c.threads[t].prog|
  {
    var th := c.threads[t];
    var op := th.prog[th.Done()];
    var r := WindowStep(step, noWrite, c, op);
    c.(mem := r.0, trace := c.trace + [Event(t, op, r.1)], threads := c.threads[t :=
      th.(results := th.results + [r.1], began := th.began + [|c.trace|], ended := th.ended + [|c.trace| + 1])])
  }

  lemma RunMore<S>(step: (S, BusOp) -> (S, word), noWrite: bool, c: Config<S>, s: seq<nat>, t: nat)
    ensures Run(step, noWrite, c, s + [t]) == Next(step, noWrite, Run(step, noWrite, c, s), t)
  {
    assert (s + [t])[..|s|] == s;
  }

  lemma {:induction false} RunConcat<S>(step: (S, BusOp) -> (S, word), noWrite: bool, c: Config<S>,
                                        a: seq<nat>, b: seq<nat>)
    ensures Run(step, noWrite, c, a + b) == Run(step, noWrite, Run(step, noWrite, c, a), b)
    decreases |b|
  {
    if b == [] {
      assert a + b == a;
    } else {
      var n := |b| - 1;
      assert a + b == (a + b[..n]) + [b[n]] && b == b[..n] + [b[n]];
      RunMore(step, noWrite, c, a + b[..n], b[n]);
      RunMore(step, noWrite, Run(step, noWrite, c, a), b[..n], b[n]);
      RunConcat(step, noWrite, c, a, b[..n]);
    }
  }

  /** Three steps to the access. */
  lemma CallBegins<S>(step: (S, BusOp) -> (S, word), noWrite: bool, c: Config<S>, t: nat)
    requires Astray(noWrite, c, t)
    ensures var th := c.threads[t];
      Run(step, noWrite, c, [t, t, t]) ==
        c.(holder := Some(t), threads := c.threads[t := th.(pc := Ready, began := th.began + [|c.trace|])])
  {
    ThreeSteps(step, noWrite, c, t, c.threads[t].(began := c.threads[t].began + [|c.trace|]));
    RunThree(step, noWrite, c, t);
  }

  lemma RunThree<S>(step: (S, BusOp) -> (S, word), noWrite: bool, c: Config<S>, t: nat)
    ensures Run(step, noWrite, c, [t, t, t]) ==
            Next(step, noWrite, Next(step, noWrite, Next(step, noWrite, c, t), t), t)
  {
    RunMore(step, noWrite, c, [], t);
    RunMore(step, noWrite, c, [t], t);
    RunMore(step, noWrite, c, [t, t], t);
    assert [] + [t] == [t] && [t] + [t] == [t, t] && [t, t] + [t] == [t, t, t];
  }

  lemma ThreeSteps<S>(step: (S, BusOp) -> (S, word), noWrite: bool, c: Config<S>, t: nat, b: Thread)
    requires Astray(noWrite, c, t) && b == c.threads[t].(began := c.threads[t].began + [|c.trace|])
    ensures Next(step, noWrite, Next(step, noWrite, Next(step, noWrite, c, t), t), t) ==
            c.(holder := Some(t), threads := c.threads[t := b.(pc := Ready)])
  {
    var c1 := c.(threads := c.threads[t := b.(pc := Blocked)]);
    assert Next(step, noWrite, c, t) == c1;
    var c2 := c.(holder := Some(t), threads := c.threads[t := b.(pc := Checking)]);
    assert c1.threads[t := b.(pc := Checking)] == c.threads[t := b.(pc := Checking)];
    assert Next(step, noWrite, c1, t) == c2;
    assert c2.threads[t := b.(pc := Ready)] == c.threads[t := b.(pc := Ready)];
  }

  lemma CallRuns<S>(step: (S, BusOp) -> (S, word), noWrite: bool, c: Config<S>, t: nat)
    requires Astray(noWrite, c, t)
    ensures Run(step, noWrite, c, [t, t, t, t, t]) == Call(step, noWrite, c, t)
  {
    CallBegins(step, noWrite, c, t);
    RunMore(step, noWrite, c, [t, t, t], t);
    RunMore(step, noWrite, c, [t, t, t, t], t);
    assert [t, t, t] + [t] == [t, t, t, t] && [t, t, t, t] + [t] == [t, t, t, t, t];
    var c3 := Run(step, noWrite, c, [t, t, t]);
    CallEnds(step, noWrite, c, c3, t);
  }

  /** The access and the return. */
  lemma CallEnds<S>(step: (S, BusOp) -> (S, word), noWrite: bool, c: Config<S>, c3: Config<S>, t: nat)
    requires Astray(noWrite, c, t)
    requires var th := c.threads[t];
      c3 == c.(holder := Some(t), threads := c.threads[t := th.(pc := Ready, began := th.began + [|c.trace|])])
    ensures Next(step, noWrite, Next(step, noWrite, c3, t), t) == Call(step, noWrite, c, t)
  {
    var th := c3.threads[t];
    var op := th.prog[th.Done()];
    var r := WindowStep(step, noWrite, c, op);
    assert WindowStep(step, noWrite, c3, op) == r;
    var c4 := c3.(mem := r.0, trace := c.trace + [Event(t, op, r.1)],
                  threads := c3.threads[t := th.(pc := Accessed(r.1))]);
    assert Next(step, noWrite, c3, t) == c4;
  }

  /** Event `k` is not what the flat memory of `Witness` would have returned. */
  ghost predicate Wrong(noWrite: bool, trace: seq<Event>, k: nat) {
    k < |trace| && !(noWrite && trace[k].op.IsWrite()) && trace[k].val != U32(trace[k].op.addr + 1)
  }

  /** A misled goroutine, run alone, makes a wrong access. */
  lemma {:induction false} GoesWrong<S>(noWrite: bool, c: Config<S>, t: nat) returns (schedule: seq<nat>, k: nat)
    requires Astray(noWrite, c, t)
    ensures Wrong(noWrite, Run(Witness, noWrite, c, schedule).trace, k)
    decreases if t < |c.threads| then |c.threads[t].prog| - c.threads[t].Done() else 0
  {
    var th := c.threads[t];
    var op := th.prog[th.Done()];
    CallRuns(Witness, noWrite, c, t);
    schedule := [t, t, t, t, t];
    k := |c.trace|;
    if noWrite && op.IsWrite() {
      var c' := Call(Witness, noWrite, c, t);
      var more;
      more, k := GoesWrong(noWrite, c', t);
      RunConcat(Witness, noWrite, c, schedule, more);
      schedule := schedule + more;
    } else {
      StrayValue(noWrite, c, op);
    }
  }

  lemma StrayValue<S>(noWrite: bool, c: Config<S>, op: BusOp)
    requires PageOf(op.addr) == 0 && !(c.enable == 1 && c.page < PAGE) && !(noWrite && op.IsWrite())
    ensures WindowStep(Witness, noWrite, c, op).1 != U32(op.addr + 1)
  {
    StrayAddress(c.page, op.addr);
  }

  ghost predicate RunsFlat<S>(step: (S, BusOp) -> (S, word), noWrite: bool, c0: Config<S>, schedule: seq<nat>) {
    FlatRun(step, noWrite, c0.mem, Run(step, noWrite, c0, schedule).trace)
  }

  /** Every interleaving, over every memory, is a run of the flat memory exactly if the caller's
      condition holds. */
  lemma FlatExactly<S(!new)>(noWrite: bool, c0: Config<S>)
    requires Initial(c0)
    ensures Warm(noWrite, c0) <==>
      forall step: (S, BusOp) -> (S, word), schedule: seq<nat> :: RunsFlat(step, noWrite, c0, schedule)
  {
    if Warm(noWrite, c0) {
      forall step: (S, BusOp) -> (S, word), schedule: seq<nat>
        ensures RunsFlat(step, noWrite, c0, schedule)
      {
        GoodRun(step, noWrite, c0, schedule);
      }
    } else {
      var t :| 0 <= t < |c0.threads| && Exposed(noWrite, c0.threads[t].prog, 0);
      var schedule, k := GoesWrong(noWrite, c0, t);
      WrongIsNotFlat(noWrite, c0.mem, Run(Witness, noWrite, c0, schedule).trace, k);
      var step: (S, BusOp) -> (S, word) := Witness;
      assert !RunsFlat(step, noWrite, c0, schedule);
    }
  }

  lemma WrongIsNotFlat<S>(noWrite: bool, mem0: S, trace: seq<Event>, k: nat)
    requires Wrong(noWrite, trace, k)
    ensures !FlatRun(Witness, noWrite, mem0, trace)
  {
    assert trace[k].val != FlatStep(Witness, noWrite, FlatState(Witness, noWrite, mem0, trace[..k]), trace[k].op).1;
  }

  /** The exception is real: with the bridge left pointing at another page, or with its window
      disabled, a first access to page 0 silently returns something else. */
  lemma PageZeroMissed(page: word, enable: word)
    requires (page, enable) in {(0x1_0000, 1), (0, 0)}
    ensures var c0 := Config([Thread([R32(0x20)], Idle, [], [], [])], None, 0, page, enable, 0 as word, []);
      Initial(c0) && !Warm(false, c0)
      && Run(Witness, false, c0, [0, 0, 0, 0, 0]).trace == [Event(0, R32(0x20), if enable == 1 then 0x1_0021 else 0)]
  {
    var c0 := Config([Thread([R32(0x20)], Idle, [], [], [])], None, 0, page, enable, 0 as word, []);
    assert PageOf(0x20) == 0;
    assert Exposed(false, c0.threads[0].prog, 0) && Astray(false, c0, 0);
    CallRuns(Witness, false, c0, 0);
    MissedValue(c0);
    assert Call(Witness, false, c0, 0).trace == [] + [Event(0, R32(0x20), WindowStep(Witness, false, c0, R32(0x20)).1)];
  }

  lemma MissedValue(c: Config<word>)
    requires (c.page, c.enable) in {(0x1_0000, 1), (0, 0)}
    ensures WindowStep(Witness, false, c, R32(0x20)).1 == if c.enable == 1 then 0x1_0021 else 0
  {
    assert WindowAddr(0x1_0000, PAGE + 0x20) == 0x1_0020;
  }
}
