/** The register change monitor (pmem/monitor.go): samples registers in an endless loop, records
    masked changes, and hands them over in batches. */
module Monitor {
  import opened Bits

  /** A recorded change. `mon` is the place of the monitor in the list; `aux` is filled in by the
      capture hook. */
  datatype GpioChange = GpioChange(time: word, addr: nat, oldVal: word, newVal: word, delay: word,
                                   mask: word, aux: seq<word>, mon: nat)

  class Mon {
    const off: nat
    const mask: word
    var oldVal: word
    var oldValid: bool

    constructor (off: nat, mask: word)
      ensures this.off == off && this.mask == mask && !oldValid
    {
      this.off, this.mask, oldVal, oldValid := off, mask, 0, false;
    }
  }

  /** A value as the monitor compares it. */
  function Seen(v: word, mask: word): word { AndNot(v, mask) }

  /** The two agree in every bit that is not masked. */
  ghost predicate Agree(a: nat, b: nat, mask: nat) {
    forall k :: 0 <= k < 32 && !Bit(mask, k) ==> (Bit(a, k) <==> Bit(b, k))
  }

  /** Two values look the same exactly if they agree outside the mask. */
  lemma SeenBits(a: word, b: word, mask: word)
    ensures Seen(a, mask) == Seen(b, mask) <==> Agree(a, b, mask)
  {
    var s, t := Seen(a, mask), Seen(b, mask);
    forall k: nat ensures (Bit(s, k) <==> Bit(a, k) && !Bit(mask, k)) && (Bit(t, k) <==> Bit(b, k) && !Bit(mask, k)) {
      BitOfAndNot(a, mask, k);
      BitOfAndNot(b, mask, k);
    }
    if Agree(a, b, mask) {
      Pow32();
      SameBits(s, t, 32);
    }
  }

  lemma {:induction false} SameBits(a: nat, b: nat, n: nat)
    requires a < Pow2(n) && b < Pow2(n) && forall k :: 0 <= k < n ==> (Bit(a, k) <==> Bit(b, k))
    ensures a == b
    decreases n
  {
    if n > 0 {
      assert Bit(a, 0) <==> Bit(b, 0);
      forall k | 0 <= k < n - 1 ensures Bit(a / 2, k) <==> Bit(b / 2, k) {
        assert Bit(a, k + 1) <==> Bit(b, k + 1);
      }
      SameBits(a / 2, b / 2, n - 1);
    }
  }

  /** The first `n` samples of monitor `j`. */
  function Samples(sample: (nat, nat) -> word, j: nat, n: nat): seq<word> {
    seq(n, i requires 0 <= i < n => sample(i, j))
  }

  /** A sequence of samples without repetitions, outside the mask. */
  function Destutter(s: seq<word>, mask: word): seq<word> {
    if s == [] then []
    else
      var n, v := |s| - 1, Seen(s[|s| - 1], mask);
      if n > 0 && v == Seen(s[n - 1], mask) then Destutter(s[..n], mask) else Destutter(s[..n], mask) + [v]
  }

  /** The values monitor `j` was recorded to change to, in order. */
  function News(all: seq<GpioChange>, j: nat, mask: word): seq<word> {
    if all == [] then []
    else
      var c := all[|all| - 1];
      News(all[..|all| - 1], j, mask) + if c.mon == j then [Seen(c.newVal, mask)] else []
  }

  /** The values monitor `j` was recorded to change from, in order. */
  function Olds(all: seq<GpioChange>, j: nat, mask: word): seq<word> {
    if all == [] then []
    else
      var c := all[|all| - 1];
      Olds(all[..|all| - 1], j, mask) + if c.mon == j then [Seen(c.oldVal, mask)] else []
  }

  function Flatten(batches: seq<seq<GpioChange>>): seq<GpioChange> {
    if batches == [] then [] else Flatten(batches[..|batches| - 1]) + batches[|batches| - 1]
  }

  function DelaySum(all: seq<GpioChange>): nat {
    if all == [] then 0 else DelaySum(all[..|all| - 1]) + all[|all| - 1].delay
  }

  function LastTime(all: seq<GpioChange>): word { if all == [] then 0 else all[|all| - 1].time }

  /** Every delay is the time since the change before, in 32 bits. */
  ghost predicate Timed(all: seq<GpioChange>) {
    forall r :: 0 <= r < |all| ==> SinceLast(all[r], all[..r])
  }

  ghost predicate SinceLast(c: GpioChange, before: seq<GpioChange>) { c.delay == U32(c.time - LastTime(before)) }

  /** What was recorded of monitor `j` after its first sample is exactly its stutter-free
      sequence of samples. */
  ghost predicate Faithful(all: seq<GpioChange>, sample: (nat, nat) -> word, j: nat, mask: word, n: nat) {
    Destutter(Samples(sample, j, n), mask) ==
      (if n == 0 then [] else [Seen(sample(0, j), mask)]) + News(all, j, mask)
  }

  /** Every recorded change starts from the value the one before ended with. */
  ghost predicate Chained(all: seq<GpioChange>, sample: (nat, nat) -> word, j: nat, mask: word, n: nat) {
    if n == 0 then Olds(all, j, mask) == []
    else Olds(all, j, mask) + [Seen(sample(n - 1, j), mask)] == [Seen(sample(0, j), mask)] + News(all, j, mask)
  }

  /** A change tells which register changed. */
  ghost predicate Describes(mons: seq<Mon>, c: GpioChange) {
    c.mon < |mons| && c.addr == mons[c.mon].off && c.mask == mons[c.mon].mask
  }

  /** The monitor remembers its last sample. */
  ghost predicate Remembers(m: Mon, sample: (nat, nat) -> word, j: nat, n: nat)
    reads m
  {
    (m.oldValid <==> n > 0) && (n > 0 ==> m.oldVal == sample(n - 1, j))
  }

  lemma NewsAppend(all: seq<GpioChange>, c: GpioChange, j: nat, mask: word)
    ensures News(all + [c], j, mask) == News(all, j, mask) + if c.mon == j then [Seen(c.newVal, mask)] else []
    ensures Olds(all + [c], j, mask) == Olds(all, j, mask) + if c.mon == j then [Seen(c.oldVal, mask)] else []
  {
    assert (all + [c])[..|all|] == all;
  }

  lemma SamplesNext(sample: (nat, nat) -> word, j: nat, n: nat, mask: word)
    ensures var s, t := Samples(sample, j, n), Samples(sample, j, n + 1);
      Destutter(t, mask) == if n > 0 && Seen(sample(n, j), mask) == Seen(sample(n - 1, j), mask)
                            then Destutter(s, mask) else Destutter(s, mask) + [Seen(sample(n, j), mask)]
  {
    assert Samples(sample, j, n + 1)[..n] == Samples(sample, j, n);
  }

  /** A further sample of monitor `j`, recorded if it differs. */
  lemma FaithfulNext(all: seq<GpioChange>, all': seq<GpioChange>, sample: (nat, nat) -> word,
                     j: nat, mask: word, n: nat)
    requires Faithful(all, sample, j, mask, n)
    requires if n > 0 && Seen(sample(n, j), mask) != Seen(sample(n - 1, j), mask)
      then News(all', j, mask) == News(all, j, mask) + [Seen(sample(n, j), mask)]
      else News(all', j, mask) == News(all, j, mask)
    requires n == 0 ==> News(all, j, mask) == []
    ensures Faithful(all', sample, j, mask, n + 1)
  {
    SamplesNext(sample, j, n, mask);
  }

  lemma ChainedNext(all: seq<GpioChange>, all': seq<GpioChange>, sample: (nat, nat) -> word,
                    j: nat, mask: word, n: nat)
    requires Chained(all, sample, j, mask, n) && (n == 0 ==> News(all, j, mask) == [])
    requires if n > 0 && Seen(sample(n, j), mask) != Seen(sample(n - 1, j), mask)
      then News(all', j, mask) == News(all, j, mask) + [Seen(sample(n, j), mask)]
        && Olds(all', j, mask) == Olds(all, j, mask) + [Seen(sample(n - 1, j), mask)]
      else News(all', j, mask) == News(all, j, mask) && Olds(all', j, mask) == Olds(all, j, mask)
    ensures Chained(all', sample, j, mask, n + 1)
  {
  }

  /** A sample that differs is recorded. */
  lemma Recorded(all: seq<GpioChange>, c: GpioChange, sample: (nat, nat) -> word, j: nat, mask: word, n: nat)
    requires Faithful(all, sample, j, mask, n) && Chained(all, sample, j, mask, n)
    requires n > 0 && c.mon == j && c.oldVal == sample(n - 1, j) && c.newVal == sample(n, j)
    requires Seen(c.newVal, mask) != Seen(c.oldVal, mask)
    ensures Faithful(all + [c], sample, j, mask, n + 1) && Chained(all + [c], sample, j, mask, n + 1)
  {
    NewsAppend(all, c, j, mask);
    FaithfulNext(all, all + [c], sample, j, mask, n);
    ChainedNext(all, all + [c], sample, j, mask, n);
  }

  /** A first sample, or one that does not differ, is not. */
  lemma NotRecorded(all: seq<GpioChange>, sample: (nat, nat) -> word, j: nat, mask: word, n: nat)
    requires Faithful(all, sample, j, mask, n) && Chained(all, sample, j, mask, n)
    requires if n == 0 then News(all, j, mask) == [] else Seen(sample(n, j), mask) == Seen(sample(n - 1, j), mask)
    ensures Faithful(all, sample, j, mask, n + 1) && Chained(all, sample, j, mask, n + 1)
  {
    FaithfulNext(all, all, sample, j, mask, n);
    ChainedNext(all, all, sample, j, mask, n);
  }

  /** The sum of delays reaches the new change. */
  lemma SumNext(all: seq<GpioChange>, c: GpioChange)
    requires U32(DelaySum(all)) == LastTime(all) && c.delay == U32(c.time - LastTime(all))
    ensures U32(DelaySum(all + [c])) == c.time
  {
    assert (all + [c])[..|all|] == all;
    var s, l: int := DelaySum(all), LastTime(all);
    assert s == TWO32 * (s / TWO32) + l;
    if c.time >= l {
      assert c.delay == c.time - l;
      Wraps(s / TWO32, c.time);
    } else {
      assert c.delay == c.time - l + TWO32;
      Wraps(s / TWO32 + 1, c.time);
    }
  }

  lemma Wraps(k: nat, t: word)
    ensures U32(TWO32 * k + t) == t
  {
  }

  /** Delays add up to the time of the last change, wrapping included. */
  lemma {:induction false} DelaysAddUp(all: seq<GpioChange>)
    requires Timed(all)
    ensures U32(DelaySum(all)) == LastTime(all)
    decreases |all|
  {
    if all != [] {
      var init, c := all[..|all| - 1], all[|all| - 1];
      assert all == init + [c];
      TimedPrefix(all, |init|);
      DelaysAddUp(init);
      SumNext(init, c);
    }
  }

  lemma TimedPrefix(all: seq<GpioChange>, n: nat)
    requires Timed(all) && n <= |all|
    ensures Timed(all[..n])
  {
    forall r | 0 <= r < n ensures SinceLast(all[..n][r], all[..n][..r]) {
      assert all[..n][..r] == all[..r];
    }
  }

  // ---- Where a change comes from ----

  /** In the loop, monitor `j` of iteration `i` comes before monitor `k` of iteration `it`. */
  predicate Before(i: nat, j: nat, it: nat, k: nat) { i < it || (i == it && j < k) }

  /** The change is what iteration `i` saw of its register: stamped with the clock, from the
      sample before to the present one, and different in a bit that is looked at. */
  ghost predicate MadeAt(c: GpioChange, i: nat, sample: (nat, nat) -> word, clock: nat -> word) {
    && i > 0 && c.time == clock(i) && c.oldVal == sample(i - 1, c.mon) && c.newVal == sample(i, c.mon)
    && Seen(c.newVal, c.mask) != Seen(c.oldVal, c.mask)
  }

  /** Change `r` was made in iteration `at[r]`; all were made in the loop's order, before it came
      to monitor `k` of iteration `it`. */
  ghost predicate Stamped(all: seq<GpioChange>, at: seq<nat>, sample: (nat, nat) -> word, clock: nat -> word,
                          it: nat, k: nat) {
    && |at| == |all|
    && (forall r :: 0 <= r < |all| ==> MadeAt(all[r], at[r], sample, clock) && Before(at[r], all[r].mon, it, k))
    && (forall r, q :: 0 <= r < q < |all| ==> Before(at[r], all[r].mon, at[q], all[q].mon))
  }

  // ---- The capture hook ----

  /** The hook's state after the changes `all`. */
  function HookState<S>(cfn: (S, GpioChange) -> (S, seq<word>), s0: S, all: seq<GpioChange>): S {
    if all == [] then s0
    else cfn(HookState(cfn, s0, all[..|all| - 1]), all[|all| - 1].(aux := [])).0
  }

  /** Every change carries what the hook added to it when it was recorded. */
  ghost predicate Hooked<S>(cfn: (S, GpioChange) -> (S, seq<word>), s0: S, all: seq<GpioChange>) {
    forall i :: 0 <= i < |all| ==>
      all[i].aux == cfn(HookState(cfn, s0, all[..i]), all[i].(aux := [])).1
  }

  /** The hook let the program live, except perhaps at the very last change. */
  ghost predicate Lived<S>(hook: (S, GpioChange) -> (S, seq<word>), stops: S -> bool, s0: S, all: seq<GpioChange>) {
    forall n :: 0 <= n < |all| ==> !stops(HookState(hook, s0, all[..n]))
  }

  // ---- The loop ----

  /** What the monitor works with: the registers' values and the clock by iteration, the hook that
      sees every change as it is recorded, whether that stopped the program, and whether the
      batch function stops it. */
  datatype Setting<!S> = Setting(sample: (nat, nat) -> word, clock: nat -> word,
                                 hook: (S, GpioChange) -> (S, seq<word>), stops: S -> bool,
                                 ends: seq<GpioChange> -> bool)

  /** How often monitor `j` has been sampled, in iteration `it` after the first `k` monitors. */
  function Taken(it: nat, k: nat, j: nat): nat { if j < k then it + 1 else it }

  /** What was recorded of monitor `j` is what its first `n` samples say. */
  ghost predicate Told(all: seq<GpioChange>, sample: (nat, nat) -> word, j: nat, mask: word, n: nat) {
    && Faithful(all, sample, j, mask, n) && Chained(all, sample, j, mask, n)
    && (n == 0 ==> News(all, j, mask) == [])
  }

  ghost predicate Different(mons: seq<Mon>) {
    forall i, j :: 0 <= i < j < |mons| ==> mons[i] != mons[j]
  }

  /** Every monitor remembers its last sample. */
  ghost predicate AllRemember(mons: seq<Mon>, sample: (nat, nat) -> word, it: nat, k: nat)
    reads set m | m in mons
  {
    forall j :: 0 <= j < |mons| ==> Remembers(mons[j], sample, j, Taken(it, k, j))
  }

  ghost predicate AllTold(mons: seq<Mon>, sample: (nat, nat) -> word, all: seq<GpioChange>, it: nat, k: nat) {
    forall j {:trigger Told(all, sample, j, mons[j].mask, Taken(it, k, j))} ::
      0 <= j < |mons| ==> Told(all, sample, j, mons[j].mask, Taken(it, k, j))
  }

  /** The last of `all` was made, where the loop had come to, before monitor `k` of iteration `it`. */
  ghost predicate LastBefore(all: seq<GpioChange>, at: seq<nat>, it: nat, k: nat)
    requires |at| == |all|
  {
    all != [] ==> Before(at[|all| - 1], all[|all| - 1].mon, it, k)
  }

  /** Change `r` as it came behind the ones before, when the program still lived. */
  ghost predicate Entry<S>(mons: seq<Mon>, x: Setting<S>, s0: S, all: seq<GpioChange>, at: seq<nat>, r: nat)
    requires r < |all| == |at|
  {
    var c, before := all[r], all[..r];
    && Describes(mons, c) && MadeAt(c, at[r], x.sample, x.clock) && LastBefore(before, at[..r], at[r], c.mon)
    && SinceLast(c, before)
    && !x.stops(HookState(x.hook, s0, before))
    && c.aux == x.hook(HookState(x.hook, s0, before), c.(aux := [])).1
  }

  ghost predicate Ledger<S>(mons: seq<Mon>, x: Setting<S>, s0: S, all: seq<GpioChange>, at: seq<nat>) {
    |at| == |all| &&
    forall r {:trigger Entry(mons, x, s0, all, at, r)} :: 0 <= r < |all| ==> Entry(mons, x, s0, all, at, r)
  }

  /** The books over all changes, in iteration `it` after the first `k` monitors. */
  ghost predicate Books<S>(mons: seq<Mon>, x: Setting<S>, s0: S, all: seq<GpioChange>, at: seq<nat>, it: nat, k: nat) {
    && Ledger(mons, x, s0, all, at) && LastBefore(all, at, it, k) && AllTold(mons, x.sample, all, it, k)
  }

  lemma LedgerNext<S>(mons: seq<Mon>, x: Setting<S>, s0: S, all: seq<GpioChange>, at: seq<nat>, c: GpioChange, i: nat)
    requires Ledger(mons, x, s0, all, at) && Describes(mons, c) && MadeAt(c, i, x.sample, x.clock)
    requires LastBefore(all, at, i, c.mon) && SinceLast(c, all) && !x.stops(HookState(x.hook, s0, all))
    requires c.aux == x.hook(HookState(x.hook, s0, all), c.(aux := [])).1
    ensures Ledger(mons, x, s0, all + [c], at + [i])
    ensures HookState(x.hook, s0, all + [c]) == x.hook(HookState(x.hook, s0, all), c.(aux := [])).0
  {
    var all', at' := all + [c], at + [i];
    assert all'[..|all|] == all && at'[..|at|] == at;
    forall r | 0 <= r < |all'| ensures Entry(mons, x, s0, all', at', r) {
      if r < |all| {
        assert Entry(mons, x, s0, all, at, r);
        assert all'[..r] == all[..r] && at'[..r] == at[..r];
      }
    }
  }

  // What the ledger says of all changes together.

  lemma LedgerTimed<S>(mons: seq<Mon>, x: Setting<S>, s0: S, all: seq<GpioChange>, at: seq<nat>)
    requires Ledger(mons, x, s0, all, at)
    ensures Timed(all) && forall r :: 0 <= r < |all| ==> Describes(mons, all[r])
  {
    forall r | 0 <= r < |all| ensures SinceLast(all[r], all[..r]) && Describes(mons, all[r]) {
      assert Entry(mons, x, s0, all, at, r);
    }
  }

  lemma LedgerHooked<S>(mons: seq<Mon>, x: Setting<S>, s0: S, all: seq<GpioChange>, at: seq<nat>)
    requires Ledger(mons, x, s0, all, at)
    ensures Hooked(x.hook, s0, all) && Lived(x.hook, x.stops, s0, all)
  {
    forall r | 0 <= r < |all|
      ensures all[r].aux == x.hook(HookState(x.hook, s0, all[..r]), all[r].(aux := [])).1
      ensures !x.stops(HookState(x.hook, s0, all[..r]))
    {
      assert Entry(mons, x, s0, all, at, r);
    }
  }

  lemma LedgerStamped<S>(mons: seq<Mon>, x: Setting<S>, s0: S, all: seq<GpioChange>, at: seq<nat>, it: nat, k: nat)
    requires Ledger(mons, x, s0, all, at) && LastBefore(all, at, it, k)
    ensures Stamped(all, at, x.sample, x.clock, it, k)
  {
    forall r | 0 <= r < |all|
      ensures MadeAt(all[r], at[r], x.sample, x.clock) && Before(at[r], all[r].mon, it, k)
      ensures forall q :: 0 <= q < r ==> Before(at[q], all[q].mon, at[r], all[r].mon)
    {
      assert Entry(mons, x, s0, all, at, r);
      InOrder(mons, x, s0, all, at, r, it, k);
      forall q | 0 <= q < r ensures Before(at[q], all[q].mon, at[r], all[r].mon) {
        Earlier(mons, x, s0, all, at, q, r);
      }
    }
  }

  lemma {:induction false} Earlier<S>(mons: seq<Mon>, x: Setting<S>, s0: S, all: seq<GpioChange>, at: seq<nat>,
                                      q: nat, r: nat)
    requires Ledger(mons, x, s0, all, at) && q < r < |all|
    ensures Before(at[q], all[q].mon, at[r], all[r].mon)
    decreases r
  {
    assert Entry(mons, x, s0, all, at, r);
    assert Before(at[r - 1], all[r - 1].mon, at[r], all[r].mon);
    if q < r - 1 { Earlier(mons, x, s0, all, at, q, r - 1); }
  }

  lemma InOrder<S>(mons: seq<Mon>, x: Setting<S>, s0: S, all: seq<GpioChange>, at: seq<nat>, r: nat, it: nat, k: nat)
    requires Ledger(mons, x, s0, all, at) && LastBefore(all, at, it, k) && r < |all|
    ensures Before(at[r], all[r].mon, it, k)
  {
    if r < |all| - 1 { Earlier(mons, x, s0, all, at, r, |all| - 1); }
  }

  /** What is recorded of a sample: nothing for a first one or one that does not differ. */
  function SampleOf<S>(m: Mon, x: Setting<S>, s: S, t: word, lastChangeTime: word, it: nat, k: nat): seq<GpioChange> {
    if it == 0 || Seen(x.sample(it, k), m.mask) == Seen(x.sample(it - 1, k), m.mask) then []
    else
      var c := GpioChange(t, m.off, x.sample(it - 1, k), x.sample(it, k), U32(t - lastChangeTime), m.mask, [], k);
      [c.(aux := x.hook(s, c).1)]
  }

  /** Samples one monitor; a change is recorded and passed through the hook. If the hook stops the
      program, the monitor does not get to remember the sample. */
  method SampleMon<S>(m: Mon, x: Setting<S>, s: S, t: word, lastChangeTime: word, ghost it: nat, k: nat, val: word)
    returns (recorded: seq<GpioChange>, s': S, last: word)
    requires Remembers(m, x.sample, k, it) && val == x.sample(it, k)
    modifies m
    ensures recorded == SampleOf(m, x, s, t, lastChangeTime, it, k)
    ensures recorded == [] ==> (s', last) == (s, lastChangeTime)
    ensures recorded != [] ==> (s', last) == (x.hook(s, recorded[0].(aux := [])).0, t)
    ensures recorded == [] || !x.stops(s') ==> Remembers(m, x.sample, k, it + 1)
  {
    recorded, s', last := [], s, lastChangeTime;
    if m.oldValid && Seen(val, m.mask) != Seen(m.oldVal, m.mask) {
      var c := GpioChange(t, m.off, m.oldVal, val, U32(t - lastChangeTime), m.mask, [], k);
      var r := x.hook(s, c);
      recorded, s', last := [c.(aux := r.1)], r.0, t;
      if x.stops(s') { return; }
    }
    m.oldValid := true;
    m.oldVal := val;
  }

  /** Another monitor's change leaves this one's books alone. */
  lemma OtherTold(all: seq<GpioChange>, c: GpioChange, sample: (nat, nat) -> word, j: nat, mask: word, n: nat)
    requires Told(all, sample, j, mask, n) && c.mon != j
    ensures Told(all + [c], sample, j, mask, n)
  {
    NewsAppend(all, c, j, mask);
  }

  /** The books after a recorded change, ... */
  lemma BooksRecord<S>(mons: seq<Mon>, x: Setting<S>, s0: S, all: seq<GpioChange>, at: seq<nat>, it: nat, k: nat,
                       c: GpioChange)
    requires k < |mons| && Books(mons, x, s0, all, at, it, k) && c.mon == k
    requires Describes(mons, c) && MadeAt(c, it, x.sample, x.clock) && SinceLast(c, all)
    requires !x.stops(HookState(x.hook, s0, all))
    requires c.aux == x.hook(HookState(x.hook, s0, all), c.(aux := [])).1
    ensures Books(mons, x, s0, all + [c], at + [it], it, k + 1)
    ensures HookState(x.hook, s0, all + [c]) == x.hook(HookState(x.hook, s0, all), c.(aux := [])).0
  {
    LedgerNext(mons, x, s0, all, at, c, it);
    ToldRecord(mons, x.sample, x.clock, all, it, k, c);
  }

  lemma ToldRecord(mons: seq<Mon>, sample: (nat, nat) -> word, clock: nat -> word, all: seq<GpioChange>,
                   it: nat, k: nat, c: GpioChange)
    requires k < |mons| && AllTold(mons, sample, all, it, k)
    requires c.mon == k && MadeAt(c, it, sample, clock) && Describes(mons, c)
    ensures AllTold(mons, sample, all + [c], it, k + 1)
  {
    forall j | 0 <= j < |mons| ensures Told(all + [c], sample, j, mons[j].mask, Taken(it, k + 1, j)) {
      assert Told(all, sample, j, mons[j].mask, Taken(it, k, j));
      if j == k {
        Recorded(all, c, sample, k, mons[k].mask, it);
      } else {
        OtherTold(all, c, sample, j, mons[j].mask, Taken(it, k, j));
      }
    }
  }

  /** ... and after a sample that needs none. */
  lemma ToldPass(mons: seq<Mon>, sample: (nat, nat) -> word, all: seq<GpioChange>, it: nat, k: nat)
    requires k < |mons| && AllTold(mons, sample, all, it, k)
    requires it > 0 ==> Seen(sample(it, k), mons[k].mask) == Seen(sample(it - 1, k), mons[k].mask)
    ensures AllTold(mons, sample, all, it, k + 1)
  {
    forall j | 0 <= j < |mons| ensures Told(all, sample, j, mons[j].mask, Taken(it, k + 1, j)) {
      assert Told(all, sample, j, mons[j].mask, Taken(it, k, j));
      if j == k { NotRecorded(all, sample, k, mons[k].mask, it); }
    }
  }

  /** The loop's running values are those the changes so far give. */
  ghost predicate Running<S>(x: Setting<S>, s0: S, s: S, last: word, all: seq<GpioChange>) {
    s == HookState(x.hook, s0, all) && last == LastTime(all)
  }

  /** The program stopped as the change of monitor `k - 1` in iteration `it` was recorded. */
  ghost predicate StoppedAt(all: seq<GpioChange>, at: seq<nat>, it: nat, k: nat) {
    |at| == |all| > 0 && k > 0 && at[|all| - 1] == it && all[|all| - 1].mon == k - 1
  }

  /** `all` and `at` are `all0` and `at0` with some changes of iteration `it` behind. */
  ghost predicate Adds(all0: seq<GpioChange>, at0: seq<nat>, all: seq<GpioChange>, at: seq<nat>, it: nat) {
    && all0 <= all && at0 <= at && |all0| == |at0| && |all| == |at|
    && forall r :: |at0| <= r < |at| ==> at[r] == it
  }

  lemma AddsMore(all0: seq<GpioChange>, at0: seq<nat>, all1: seq<GpioChange>, at1: seq<nat>,
                 all: seq<GpioChange>, at: seq<nat>, it: nat)
    requires Adds(all0, at0, all1, at1, it) && Adds(all1, at1, all, at, it)
    ensures Adds(all0, at0, all, at, it)
  {
    forall r | |at0| <= r < |at| ensures at[r] == it {
      if r < |at1| { assert at[r] == at1[r]; }
    }
  }

  /** The books after one monitor's sample. */
  lemma BooksSample<S>(mons: seq<Mon>, x: Setting<S>, s0: S, all: seq<GpioChange>, at: seq<nat>, it: nat, k: nat,
                       recorded: seq<GpioChange>) returns (at': seq<nat>)
    requires k < |mons| && Books(mons, x, s0, all, at, it, k) && !x.stops(HookState(x.hook, s0, all))
    requires recorded == SampleOf(mons[k], x, HookState(x.hook, s0, all), x.clock(it), LastTime(all), it, k)
    ensures Books(mons, x, s0, all + recorded, at', it, k + 1) && Adds(all, at, all + recorded, at', it)
    ensures recorded != [] ==>
      && HookState(x.hook, s0, all + recorded) == x.hook(HookState(x.hook, s0, all), recorded[0].(aux := [])).0
      && LastTime(all + recorded) == x.clock(it) && StoppedAt(all + recorded, at', it, k + 1)
    ensures |recorded| <= 1 && (recorded == [] ==> all + recorded == all)
  {
    if recorded == [] {
      ToldPass(mons, x.sample, all, it, k);
      assert all + recorded == all;
      at' := at;
    } else {
      var c := recorded[0];
      assert recorded == [c] && c.(aux := []).aux == [];
      BooksRecord(mons, x, s0, all, at, it, k, c);
      at' := at + [it];
    }
  }

  /** Samples monitor `k`; the others remember what they did. */
  method SampleAt<S>(mons: seq<Mon>, x: Setting<S>, s: S, t: word, lastChangeTime: word, ghost it: nat, k: nat,
                     val: word)
    returns (recorded: seq<GpioChange>, s': S, last: word)
    requires k < |mons| && Different(mons) && AllRemember(mons, x.sample, it, k) && val == x.sample(it, k)
    modifies mons[k]
    ensures recorded == SampleOf(mons[k], x, s, t, lastChangeTime, it, k)
    ensures recorded == [] ==> (s', last) == (s, lastChangeTime)
    ensures recorded != [] ==> (s', last) == (x.hook(s, recorded[0].(aux := [])).0, t)
    ensures recorded == [] || !x.stops(s') ==> AllRemember(mons, x.sample, it, k + 1)
  {
    assert Remembers(mons[k], x.sample, k, it);
    recorded, s', last := SampleMon(mons[k], x, s, t, lastChangeTime, it, k, val);
    if recorded == [] || !x.stops(s') {
      assert Remembers(mons[k], x.sample, k, it + 1);
      forall j | 0 <= j < |mons| && j != k ensures Remembers(mons[j], x.sample, j, Taken(it, k + 1, j)) {
        if j < k { assert mons[j] != mons[k]; } else { assert mons[k] != mons[j]; }
      }
    }
  }

  /** One round of the pass over the monitors; `change` are the pending changes among `all`, behind
      the `sent` ones. */
  method SampleOne<S>(mons: seq<Mon>, x: Setting<S>, ghost s0: S, s: S, t: word, lastChangeTime: word,
                      ghost it: nat, k: nat, val: word, change0: seq<GpioChange>,
                      ghost sent: seq<GpioChange>, ghost all0: seq<GpioChange>, ghost at0: seq<nat>)
    returns (change: seq<GpioChange>, s': S, last: word, ghost all: seq<GpioChange>, ghost at: seq<nat>)
    requires k < |mons| && Different(mons) && Books(mons, x, s0, all0, at0, it, k) && all0 == sent + change0
    requires AllRemember(mons, x.sample, it, k) && Running(x, s0, s, lastChangeTime, all0)
    requires !x.stops(s) && t == x.clock(it) && val == x.sample(it, k)
    modifies mons[k]
    ensures all == sent + change && |change| <= |change0| + 1
    ensures Books(mons, x, s0, all, at, it, k + 1) && Adds(all0, at0, all, at, it)
    ensures Running(x, s0, s', last, all)
    ensures x.stops(s') ==> StoppedAt(all, at, it, k + 1)
    ensures !x.stops(s') ==> AllRemember(mons, x.sample, it, k + 1)
  {
    var recorded;
    recorded, s', last := SampleAt(mons, x, s, t, lastChangeTime, it, k, val);
    at := BooksSample(mons, x, s0, all0, at0, it, k, recorded);
    change, all := change0 + recorded, all0 + recorded;
    assert all == sent + change;
  }

  /** A batch is due: 200 changes, or five million ticks since its first. */
  predicate Due(change: seq<GpioChange>, t: word) {
    |change| >= 200 || (|change| > 0 && U32(t - change[0].time) >= 5_000_000)
  }

  /** One pass over all monitors, or up to monitor `k - 1`, whose change stops the program. */
  method SampleAll<S>(mons: seq<Mon>, x: Setting<S>, ghost s0: S, s: S, t: word, lastChangeTime: word, it: nat,
                      change0: seq<GpioChange>, ghost sent: seq<GpioChange>, ghost all0: seq<GpioChange>,
                      ghost at0: seq<nat>)
    returns (change: seq<GpioChange>, s': S, last: word, ghost all: seq<GpioChange>, ghost at: seq<nat>, k: nat)
    requires Different(mons) && Books(mons, x, s0, all0, at0, it, 0) && all0 == sent + change0
    requires AllRemember(mons, x.sample, it, 0) && Running(x, s0, s, lastChangeTime, all0)
    requires !x.stops(s) && t == x.clock(it)
    modifies set m | m in mons
    ensures k <= |mons| && Books(mons, x, s0, all, at, it, k) && Running(x, s0, s', last, all)
    ensures all == sent + change && |change| <= |change0| + |mons| && Adds(all0, at0, all, at, it)
    ensures x.stops(s') ==> StoppedAt(all, at, it, k)
    ensures !x.stops(s') ==> k == |mons| && AllRemember(mons, x.sample, it, |mons|)
  {
    change, s', last, all, at, k := change0, s, lastChangeTime, all0, at0, 0;
    while k < |mons| && !x.stops(s')
      invariant k <= |mons| && Books(mons, x, s0, all, at, it, k) && Running(x, s0, s', last, all)
      invariant all == sent + change && |change| <= |change0| + k && Adds(all0, at0, all, at, it)
      invariant if x.stops(s') then StoppedAt(all, at, it, k) else AllRemember(mons, x.sample, it, k)
    {
      ghost var all1, at1 := all, at;
      change, s', last, all, at := SampleOne(mons, x, s0, s', t, last, it, k, x.sample(it, k), change, sent, all, at);
      AddsMore(all0, at0, all1, at1, all, at, it);
      k := k + 1;
    }
  }

  // ---- Batches ----

  /** The changes of iterations `lo..hi`. */
  function Window(all: seq<GpioChange>, at: seq<nat>, lo: nat, hi: nat): seq<GpioChange>
    requires |at| == |all|
  {
    if all == [] then []
    else
      var n := |all| - 1;
      Window(all[..n], at[..n], lo, hi) + if lo <= at[n] < hi then [all[n]] else []
  }

  /** A window that ends before the new changes stays; one that holds them all grows. */
  lemma {:induction false} WindowAdds(all0: seq<GpioChange>, at0: seq<nat>, all: seq<GpioChange>, at: seq<nat>,
                                      it: nat, lo: nat, hi: nat)
    requires Adds(all0, at0, all, at, it)
    ensures hi <= it ==> Window(all, at, lo, hi) == Window(all0, at0, lo, hi)
    ensures lo <= it < hi ==> Window(all, at, lo, hi) == Window(all0, at0, lo, hi) + all[|all0|..]
    decreases |all|
  {
    if |all| == |all0| {
      assert all == all0 && at == at0;
    } else {
      var n := |all| - 1;
      WindowAdds(all0, at0, all[..n], at[..n], it, lo, hi);
      assert all[|all0|..] == all[..n][|all0|..] + [all[n]];
    }
  }

  /** Where nothing was made there is nothing. */
  lemma {:induction false} WindowEnd(all: seq<GpioChange>, at: seq<nat>, n: nat, lo: nat, hi: nat)
    requires |at| == |all| && forall r :: 0 <= r < |at| ==> at[r] < n
    ensures lo >= n ==> Window(all, at, lo, hi) == []
    ensures hi >= n ==> Window(all, at, lo, hi) == Window(all, at, lo, n)
    decreases |all|
  {
    if all != [] { WindowEnd(all[..|all| - 1], at[..|all| - 1], n, lo, hi); }
  }

  /** The iteration after the one that sent the batch before batch `b`. */
  function Since(sent: seq<nat>, b: nat): nat
    requires b <= |sent|
  {
    if b == 0 then 0 else sent[b - 1] + 1
  }

  /** At the end of iteration `i` the changes since iteration `lo` were not due. */
  ghost predicate Waits(lo: nat, i: nat, all: seq<GpioChange>, at: seq<nat>, clock: nat -> word)
    requires |at| == |all|
  {
    Young(Window(all, at, lo, i + 1), clock(i))
  }

  /** Fewer than 200 changes, the oldest younger than five million ticks. */
  ghost predicate Young(change: seq<GpioChange>, t: word) {
    |change| < 200 && (change != [] ==> U32(t - change[0].time) < 5_000_000)
  }

  ghost predicate NotDue(lo: nat, hi: nat, all: seq<GpioChange>, at: seq<nat>, clock: nat -> word)
    requires |at| == |all|
  {
    forall i {:trigger Waits(lo, i, all, at, clock)} :: lo <= i < hi ==> Waits(lo, i, all, at, clock)
  }

  /** 200 changes, or one five million ticks old. */
  ghost predicate BatchIsDue(batch: seq<GpioChange>, t: word) {
    batch != [] && (|batch| >= 200 || U32(t - batch[0].time) >= 5_000_000)
  }

  /** Batch `b` went out at the end of iteration `sent[b]`, the first at which the changes since the
      batch before were due, and is these changes. */
  ghost predicate SentAt(batches: seq<seq<GpioChange>>, sent: seq<nat>, b: nat, all: seq<GpioChange>, at: seq<nat>,
                         clock: nat -> word)
    requires b < |batches| == |sent| && |at| == |all|
  {
    && Since(sent, b) <= sent[b] && batches[b] == Window(all, at, Since(sent, b), sent[b] + 1)
    && BatchIsDue(batches[b], clock(sent[b])) && NotDue(Since(sent, b), sent[b], all, at, clock)
  }

  /** Batches went out exactly when due, in the first `n` iterations: the pending changes are those
      since the last one, and have not been due. */
  ghost predicate Delivered(batches: seq<seq<GpioChange>>, change: seq<GpioChange>, sent: seq<nat>,
                            all: seq<GpioChange>, at: seq<nat>, clock: nat -> word, n: nat) {
    && |at| == |all| && |sent| == |batches|
    && (forall b {:trigger SentAt(batches, sent, b, all, at, clock)} ::
         0 <= b < |batches| ==> SentAt(batches, sent, b, all, at, clock))
    && Since(sent, |sent|) <= n && NotDue(Since(sent, |sent|), n, all, at, clock)
    && change == Window(all, at, Since(sent, |sent|), n + 1)
  }

  lemma NotDueAdds(lo: nat, hi: nat, all0: seq<GpioChange>, at0: seq<nat>, all: seq<GpioChange>, at: seq<nat>,
                   clock: nat -> word, it: nat)
    requires Adds(all0, at0, all, at, it) && hi <= it && NotDue(lo, hi, all0, at0, clock)
    ensures NotDue(lo, hi, all, at, clock)
  {
    forall i | lo <= i < hi ensures Waits(lo, i, all, at, clock) {
      assert Waits(lo, i, all0, at0, clock);
      WindowAdds(all0, at0, all, at, it, lo, i + 1);
    }
  }

  lemma SentAdds(batches: seq<seq<GpioChange>>, sent: seq<nat>, b: nat, all0: seq<GpioChange>, at0: seq<nat>,
                 all: seq<GpioChange>, at: seq<nat>, clock: nat -> word, it: nat)
    requires b < |batches| == |sent| && Adds(all0, at0, all, at, it) && sent[b] < it
    requires SentAt(batches, sent, b, all0, at0, clock)
    ensures SentAt(batches, sent, b, all, at, clock)
  {
    WindowAdds(all0, at0, all, at, it, Since(sent, b), sent[b] + 1);
    NotDueAdds(Since(sent, b), sent[b], all0, at0, all, at, clock, it);
  }

  lemma {:induction false} SentBefore(batches: seq<seq<GpioChange>>, change: seq<GpioChange>, sent: seq<nat>,
                                      all: seq<GpioChange>, at: seq<nat>, clock: nat -> word, n: nat, b: nat)
    requires Delivered(batches, change, sent, all, at, clock, n) && b < |sent|
    ensures sent[b] < n
    decreases |sent| - b
  {
    if b + 1 < |sent| {
      SentBefore(batches, change, sent, all, at, clock, n, b + 1);
      assert SentAt(batches, sent, b + 1, all, at, clock);
    }
  }

  lemma SameTail(a: seq<GpioChange>, b0: seq<GpioChange>, b: seq<GpioChange>)
    requires a + b0 <= a + b
    ensures b == b0 + (a + b)[|a + b0|..]
  {
    assert b0 == (a + b0)[|a|..] && b == (a + b)[|a|..];
    assert (a + b)[|a + b0|..] == b[|b0|..];
  }

  /** The changes of a pass over the monitors join the pending ones. */
  lemma DeliveredAdds(batches: seq<seq<GpioChange>>, change0: seq<GpioChange>, change: seq<GpioChange>, sent: seq<nat>,
                      all0: seq<GpioChange>, at0: seq<nat>, all: seq<GpioChange>, at: seq<nat>,
                      clock: nat -> word, it: nat)
    requires Delivered(batches, change0, sent, all0, at0, clock, it) && Adds(all0, at0, all, at, it)
    requires all0 == Flatten(batches) + change0 && all == Flatten(batches) + change
    ensures Delivered(batches, change, sent, all, at, clock, it)
  {
    SameTail(Flatten(batches), change0, change);
    forall b | 0 <= b < |batches| ensures SentAt(batches, sent, b, all, at, clock) {
      assert SentAt(batches, sent, b, all0, at0, clock);
      SentBefore(batches, change0, sent, all0, at0, clock, it, b);
      SentAdds(batches, sent, b, all0, at0, all, at, clock, it);
    }
    NotDueAdds(Since(sent, |sent|), it, all0, at0, all, at, clock, it);
    WindowAdds(all0, at0, all, at, it, Since(sent, |sent|), it + 1);
  }

  /** The end of an iteration that sends nothing, ... */
  lemma KeepsWaiting(batches: seq<seq<GpioChange>>, change: seq<GpioChange>, sent: seq<nat>,
                     all: seq<GpioChange>, at: seq<nat>, clock: nat -> word, it: nat)
    requires Delivered(batches, change, sent, all, at, clock, it) && !Due(change, clock(it))
    requires forall r :: 0 <= r < |at| ==> at[r] < it + 1
    ensures Delivered(batches, change, sent, all, at, clock, it + 1)
  {
    var lo := Since(sent, |sent|);
    WindowEnd(all, at, it + 1, lo, it + 2);
    forall i | lo <= i < it + 1 ensures Waits(lo, i, all, at, clock) {
      if i < it { assert Waits(lo, i, all, at, clock); }
    }
  }

  /** ... and of one that sends what is pending. */
  lemma Sends(batches: seq<seq<GpioChange>>, change: seq<GpioChange>, sent: seq<nat>,
              all: seq<GpioChange>, at: seq<nat>, clock: nat -> word, it: nat)
    requires Delivered(batches, change, sent, all, at, clock, it) && Due(change, clock(it))
    requires forall r :: 0 <= r < |at| ==> at[r] < it + 1
    ensures Delivered(batches + [change], [], sent + [it], all, at, clock, it + 1)
    ensures Flatten(batches + [change]) + [] == Flatten(batches) + change
  {
    var batches', sent' := batches + [change], sent + [it];
    assert batches'[..|batches|] == batches;
    WindowEnd(all, at, it + 1, it + 1, it + 2);
    assert Since(sent', |sent|) == Since(sent, |sent|) && Since(sent', |sent'|) == it + 1;
    forall b | 0 <= b < |batches'| ensures SentAt(batches', sent', b, all, at, clock) {
      if b < |batches| { assert SentAt(batches, sent, b, all, at, clock) && Since(sent', b) == Since(sent, b); }
    }
  }

  /** The deliveries in numbers: at the end of every iteration fewer than 200 changes are pending, the
      oldest younger than five million ticks; and every batch sent had 200 or was as old. */
  lemma InNumbers(batches: seq<seq<GpioChange>>, change: seq<GpioChange>, sent: seq<nat>,
                  all: seq<GpioChange>, at: seq<nat>, clock: nat -> word, n: nat)
    requires Delivered(batches, change, sent, all, at, clock, n) && forall r :: 0 <= r < |at| ==> at[r] < n
    ensures if n == 0 then change == [] else Young(change, clock(n - 1))
  {
    var lo := Since(sent, |sent|);
    WindowEnd(all, at, n, lo, n + 1);
    if lo < n { assert Waits(lo, n - 1, all, at, clock); }
  }

  lemma AllDue(batches: seq<seq<GpioChange>>, change: seq<GpioChange>, sent: seq<nat>,
               all: seq<GpioChange>, at: seq<nat>, clock: nat -> word, n: nat)
    requires Delivered(batches, change, sent, all, at, clock, n)
    ensures BatchNumbers(batches, sent, clock)
  {
    forall b | 0 <= b < |batches| ensures BatchIsDue(batches[b], clock(sent[b])) {
      assert SentAt(batches, sent, b, all, at, clock);
    }
  }

  ghost predicate BatchNumbers(batches: seq<seq<GpioChange>>, sent: seq<nat>, clock: nat -> word) {
    |sent| == |batches| && forall b :: 0 <= b < |batches| ==> BatchIsDue(batches[b], clock(sent[b]))
  }

  ghost predicate Sized(batches: seq<seq<GpioChange>>, max: nat) {
    forall b :: 0 <= b < |batches| ==> 0 < |batches[b]| <= max
  }

  /** No batch stopped the program. */
  ghost predicate AllAccepted(batches: seq<seq<GpioChange>>, ends: seq<GpioChange> -> bool) {
    forall b :: 0 <= b < |batches| ==> !ends(batches[b])
  }

  /** The last batch, sent in iteration `it`, did. */
  ghost predicate EndedAt(batches: seq<seq<GpioChange>>, sent: seq<nat>, ends: seq<GpioChange> -> bool, it: nat) {
    && |sent| == |batches| > 0 && ends(batches[|batches| - 1]) && sent[|sent| - 1] == it
    && AllAccepted(batches[..|batches| - 1], ends)
  }

  lemma RememberOn(mons: seq<Mon>, sample: (nat, nat) -> word, it: nat)
    requires AllRemember(mons, sample, it, |mons|)
    ensures AllRemember(mons, sample, it + 1, 0)
  {
    forall j | 0 <= j < |mons| ensures Remembers(mons[j], sample, j, Taken(it + 1, 0, j)) {
      assert Remembers(mons[j], sample, j, Taken(it, |mons|, j));
    }
  }

  /** The end of one pass is the start of the next. */
  lemma NextRound<S>(mons: seq<Mon>, x: Setting<S>, s0: S, all: seq<GpioChange>, at: seq<nat>, it: nat)
    requires Books(mons, x, s0, all, at, it, |mons|)
    ensures Books(mons, x, s0, all, at, it + 1, 0)
    ensures forall r :: 0 <= r < |at| ==> at[r] < it + 1
  {
    forall j | 0 <= j < |mons| ensures Told(all, x.sample, j, mons[j].mask, Taken(it + 1, 0, j)) {
      assert Told(all, x.sample, j, mons[j].mask, Taken(it, |mons|, j));
    }
    AllBefore(mons, x, s0, all, at, it, |mons|);
  }

  lemma AllBefore<S>(mons: seq<Mon>, x: Setting<S>, s0: S, all: seq<GpioChange>, at: seq<nat>, it: nat, k: nat)
    requires Ledger(mons, x, s0, all, at) && LastBefore(all, at, it, k)
    ensures forall r :: 0 <= r < |at| ==> at[r] < it + 1
  {
    forall r | 0 <= r < |at| ensures at[r] < it + 1 { InOrder(mons, x, s0, all, at, r, it, k); }
  }

  /** The end of an iteration: a batch goes out if one is due. `over`: it stops the program. */
  method SendDue(batches0: seq<seq<GpioChange>>, change0: seq<GpioChange>, t: word, ends: seq<GpioChange> -> bool,
                 ghost sent0: seq<nat>, ghost all: seq<GpioChange>, ghost at: seq<nat>, ghost clock: nat -> word,
                 ghost it: nat, ghost max: nat)
    returns (batches: seq<seq<GpioChange>>, change: seq<GpioChange>, over: bool, ghost sent: seq<nat>)
    requires all == Flatten(batches0) + change0 && Delivered(batches0, change0, sent0, all, at, clock, it)
    requires Sized(batches0, max) && |change0| <= max && AllAccepted(batches0, ends) && t == clock(it)
    requires forall r :: 0 <= r < |at| ==> at[r] < it + 1
    ensures all == Flatten(batches) + change && Delivered(batches, change, sent, all, at, clock, it + 1)
    ensures Sized(batches, max) && |change| < 200
    ensures if over then EndedAt(batches, sent, ends, it) else AllAccepted(batches, ends)
  {
    if Due(change0, t) {
      Sends(batches0, change0, sent0, all, at, clock, it);
      over := ends(change0);
      batches, sent, change := batches0 + [change0], sent0 + [it], [];
      assert batches[..|batches0|] == batches0;
    } else {
      KeepsWaiting(batches0, change0, sent0, all, at, clock, it);
      batches, sent, change, over := batches0, sent0, change0, false;
    }
  }

  lemma AllFaithful(mons: seq<Mon>, sample: (nat, nat) -> word, all: seq<GpioChange>, it: nat, k: nat)
    requires AllTold(mons, sample, all, it, k)
    ensures forall j :: 0 <= j < |mons| ==>
      Faithful(all, sample, j, mons[j].mask, Taken(it, k, j)) && Chained(all, sample, j, mons[j].mask, Taken(it, k, j))
  {
    forall j | 0 <= j < |mons|
      ensures Faithful(all, sample, j, mons[j].mask, Taken(it, k, j))
      ensures Chained(all, sample, j, mons[j].mask, Taken(it, k, j))
    {
      assert Told(all, sample, j, mons[j].mask, Taken(it, k, j));
    }
  }

  /** The pass over the monitors, with the batches sent so far. */
  method SamplePass<S>(mons: seq<Mon>, x: Setting<S>, ghost s0: S, s: S, lastChangeTime: word, i: nat,
                       ghost batches: seq<seq<GpioChange>>, change0: seq<GpioChange>,
                       ghost sent: seq<nat>, ghost all0: seq<GpioChange>, ghost at0: seq<nat>)
    returns (change: seq<GpioChange>, s': S, last: word, ghost all: seq<GpioChange>, ghost at: seq<nat>, ghost k: nat)
    requires Different(mons) && Books(mons, x, s0, all0, at0, i, 0) && all0 == Flatten(batches) + change0
    requires AllRemember(mons, x.sample, i, 0) && Running(x, s0, s, lastChangeTime, all0)
    requires !x.stops(s) && Delivered(batches, change0, sent, all0, at0, x.clock, i)
    modifies set m | m in mons
    ensures k <= |mons| && all == Flatten(batches) + change && |change| <= |change0| + |mons|
    ensures Running(x, s0, s', last, all) && Delivered(batches, change, sent, all, at, x.clock, i)
    ensures x.stops(s') ==> Books(mons, x, s0, all, at, i, k) && StoppedAt(all, at, i, k)
    ensures !x.stops(s') ==>
      && Books(mons, x, s0, all, at, i + 1, 0) && AllRemember(mons, x.sample, i + 1, 0)
      && forall r :: 0 <= r < |at| ==> at[r] < i + 1
  {
    change, s', last, all, at, k :=
      SampleAll(mons, x, s0, s, x.clock(i), lastChangeTime, i, change0, Flatten(batches), all0, at0);
    DeliveredAdds(batches, change0, change, sent, all0, at0, all, at, x.clock, i);
    if !x.stops(s') {
      NextRound(mons, x, s0, all, at, i);
      RememberOn(mons, x.sample, i);
    }
  }

  /** The program lives on after `it` iterations, or a batch of the last one has stopped it. */
  ghost predicate Stands(batches: seq<seq<GpioChange>>, sent: seq<nat>, ends: seq<GpioChange> -> bool, it: nat,
                         over: bool) {
    if over then it > 0 && EndedAt(batches, sent, ends, it - 1) else AllAccepted(batches, ends)
  }

  /** One iteration: a pass over the monitors, and a batch if one is due. */
  method Iterate<S>(mons: seq<Mon>, x: Setting<S>, ghost s0: S, s: S, lastChangeTime: word, i: nat,
                    batches0: seq<seq<GpioChange>>, change0: seq<GpioChange>,
                    ghost sent0: seq<nat>, ghost all0: seq<GpioChange>, ghost at0: seq<nat>)
    returns (batches: seq<seq<GpioChange>>, change: seq<GpioChange>, s': S, last: word, over: bool,
             ghost sent: seq<nat>, ghost all: seq<GpioChange>, ghost at: seq<nat>, ghost it: nat, ghost k: nat)
    requires Different(mons) && Books(mons, x, s0, all0, at0, i, 0) && all0 == Flatten(batches0) + change0
    requires AllRemember(mons, x.sample, i, 0) && Running(x, s0, s, lastChangeTime, all0)
    requires !x.stops(s) && |change0| < 200 && Sized(batches0, 199 + |mons|) && AllAccepted(batches0, x.ends)
    requires Delivered(batches0, change0, sent0, all0, at0, x.clock, i)
    modifies set m | m in mons
    ensures Books(mons, x, s0, all, at, it, k) && k <= |mons| && all == Flatten(batches) + change
    ensures Running(x, s0, s', last, all) && Delivered(batches, change, sent, all, at, x.clock, it)
    ensures Sized(batches, 199 + |mons|)
    ensures x.stops(s') ==> over && it == i && AllAccepted(batches, x.ends) && StoppedAt(all, at, i, k)
    ensures !x.stops(s') ==> it == i + 1 && k == 0 && |change| < 200 && Stands(batches, sent, x.ends, it, over)
    ensures !x.stops(s') ==> AllRemember(mons, x.sample, it, 0)
  {
    batches, sent, over, it := batches0, sent0, true, i;
    change, s', last, all, at, k := SamplePass(mons, x, s0, s, lastChangeTime, i, batches, change0, sent, all0, at0);
    if !x.stops(s') {
      batches, change, over, sent :=
        SendDue(batches, change, x.clock(i), x.ends, sent, all, at, x.clock, i, 199 + |mons|);
      it, k := i + 1, 0;
    }
  }

  /** The loop, for any number of iterations or until the program is stopped: by the hook, as it
      sees a change, or by the batch function. `batches` is what went to `batchfn`, and `change` what
      is still pending; together they are `all`. Batch `b` went out at the end of iteration `sent[b]`,
      and change `r` was made in iteration `at[r]`. In the end `k` monitors of iteration `it` have
      been sampled. */
  method MonLoopFun<S>(mons: seq<Mon>, x: Setting<S>, s0: S, iterations: nat)
    returns (batches: seq<seq<GpioChange>>, change: seq<GpioChange>, s: S, over: bool,
             ghost all: seq<GpioChange>, ghost sent: seq<nat>, ghost at: seq<nat>, ghost it: nat, ghost k: nat)
    requires Different(mons) && (forall m :: m in mons ==> !m.oldValid) && !x.stops(s0)
    modifies set m | m in mons
    ensures all == Flatten(batches) + change && it <= iterations && k <= |mons|
    // Every change is what it should be, and none is missing.
    ensures Stamped(all, at, x.sample, x.clock, it, k) && Timed(all) && U32(DelaySum(all)) == LastTime(all)
    ensures forall r :: 0 <= r < |all| ==> Describes(mons, all[r])
    ensures forall j :: 0 <= j < |mons| ==>
      && Faithful(all, x.sample, j, mons[j].mask, Taken(it, k, j))
      && Chained(all, x.sample, j, mons[j].mask, Taken(it, k, j))
    // The hook saw each as it was recorded, and let the program live until the last.
    ensures Hooked(x.hook, s0, all) && Lived(x.hook, x.stops, s0, all) && s == HookState(x.hook, s0, all)
    // Batches went out exactly when due.
    ensures Delivered(batches, change, sent, all, at, x.clock, it) && Sized(batches, 199 + |mons|)
    ensures !x.stops(s) ==> if it == 0 then change == [] else Young(change, x.clock(it - 1))
    ensures BatchNumbers(batches, sent, x.clock)
    // The loop ends where it should, and only there.
    ensures x.stops(s) ==> over && it < iterations && AllAccepted(batches, x.ends) && StoppedAt(all, at, it, k)
    ensures !x.stops(s) ==> k == 0 && Stands(batches, sent, x.ends, it, over) && (!over ==> it == iterations)
  {
    batches, change, s, over, all, sent, at, it, k := MonRun(mons, x, s0, iterations);
    LedgerTimed(mons, x, s0, all, at);
    DelaysAddUp(all);
    LedgerHooked(mons, x, s0, all, at);
    LedgerStamped(mons, x, s0, all, at, it, k);
    AllFaithful(mons, x.sample, all, it, k);
    AllDue(batches, change, sent, all, at, x.clock, it);
    if !x.stops(s) {
      BeforeNow(mons, x, s0, all, at, it);
      InNumbers(batches, change, sent, all, at, x.clock, it);
    }
  }

  /** The loop itself. */
  method MonRun<S>(mons: seq<Mon>, x: Setting<S>, s0: S, iterations: nat)
    returns (batches: seq<seq<GpioChange>>, change: seq<GpioChange>, s: S, over: bool,
             ghost all: seq<GpioChange>, ghost sent: seq<nat>, ghost at: seq<nat>, ghost it: nat, ghost k: nat)
    requires Different(mons) && (forall m :: m in mons ==> !m.oldValid) && !x.stops(s0)
    modifies set m | m in mons
    ensures all == Flatten(batches) + change && it <= iterations && k <= |mons|
    ensures Books(mons, x, s0, all, at, it, k) && s == HookState(x.hook, s0, all)
    ensures Delivered(batches, change, sent, all, at, x.clock, it) && Sized(batches, 199 + |mons|)
    ensures x.stops(s) ==> over && it < iterations && AllAccepted(batches, x.ends) && StoppedAt(all, at, it, k)
    ensures !x.stops(s) ==> k == 0 && Stands(batches, sent, x.ends, it, over) && (!over ==> it == iterations)
  {
    batches, change, s, over, all, sent, at, it, k := [], [], s0, false, [], [], [], 0, 0;
    var last, i := 0, 0;
    while !over && i < iterations
      invariant it <= i <= iterations && k <= |mons| && (!over ==> it == i) && all == Flatten(batches) + change
      invariant Books(mons, x, s0, all, at, it, k) && Running(x, s0, s, last, all)
      invariant Delivered(batches, change, sent, all, at, x.clock, it) && Sized(batches, 199 + |mons|)
      invariant x.stops(s) ==> over && it < iterations && AllAccepted(batches, x.ends) && StoppedAt(all, at, it, k)
      invariant !x.stops(s) ==> k == 0 && |change| < 200 && Stands(batches, sent, x.ends, it, over)
      invariant !over ==> AllRemember(mons, x.sample, it, 0)
      decreases iterations - i
    {
      batches, change, s, last, over, sent, all, at, it, k :=
        Iterate(mons, x, s0, s, last, i, batches, change, sent, all, at);
      i := i + 1;
    }
  }

  lemma BeforeNow<S>(mons: seq<Mon>, x: Setting<S>, s0: S, all: seq<GpioChange>, at: seq<nat>, it: nat)
    requires Ledger(mons, x, s0, all, at) && LastBefore(all, at, it, 0)
    ensures forall r :: 0 <= r < |at| ==> at[r] < it
  {
    forall r | 0 <= r < |at| ensures at[r] < it { InOrder(mons, x, s0, all, at, r, it, 0); }
  }
}
