/** Monitoring the PCI Express links for errors (cmds/pcimon/pcimon.go). */
module PciMon {
  import opened Bits
  import opened Aer
  import opened Pci
  import opened PciWorld

  // ---- One device ----

  /** A device's status registers and what was read from them. */
  datatype HwState = HwState(cor: Sts, unc: Sts, corReads: seq<word>, uncReads: seq<word>)

  ghost function StateOf(hw: AerHw): HwState
    reads hw
  {
    HwState(hw.cor, hw.unc, hw.corReads, hw.uncReads)
  }

  /** The application's record of one end of a link. The Go arrays are held by value, as the
      sequences here are. `start` is the device as it was found. */
  class AppDev {
    const dev: PciDev
    var errs: nat
    var corrErrs: seq<nat>
    var uncErrs: seq<nat>
    ghost const start: HwState

    constructor (dev: PciDev)
      ensures this.dev == dev && start == StateOf(dev.hw)
      ensures Untouched(SnapOf(this))
    {
      this.dev, errs := dev, 0;
      corrErrs := seq(32, _ => 0);
      uncErrs := seq(32, _ => 0);
      start := StateOf(dev.hw);
    }
  }

  /** A record and its device at one moment. */
  datatype Snap = Snap(start: HwState, hw: HwState, errs: nat, corrErrs: seq<nat>, uncErrs: seq<nat>)

  ghost function SnapOf(a: AppDev): Snap
    reads a, a.dev.hw
  {
    Snap(a.start, StateOf(a.dev.hw), a.errs, a.corrErrs, a.uncErrs)
  }

  /** Nothing counted, nothing read. */
  ghost predicate Untouched(s: Snap) {
    && s.start == s.hw && s.errs == 0 && |s.corrErrs| == |s.uncErrs| == 32
    && forall k :: 0 <= k < 32 ==> s.corrErrs[k] == s.uncErrs[k] == 0
  }

  /** What every poll keeps: `errs` is the sum of the two counter arrays, no error event since the
      start has been lost, and both registers were read equally often. */
  ghost predicate Kept(s: Snap, corMask: word, uncMask: word) {
    && |s.corrErrs| == |s.uncErrs| == 32
    && s.errs == Sum(s.corrErrs) + Sum(s.uncErrs)
    && Conserved(s.start.cor, s.hw.cor, s.corrErrs, corMask)
    && Conserved(s.start.unc, s.hw.unc, s.uncErrs, uncMask)
    && Polls(s) == |s.hw.uncReads| - |s.start.uncReads| >= 0
    && FromStart(s.start.cor.v, s.hw.cor.v, s.corrErrs, Polls(s) > 0, corMask)
    && FromStart(s.start.unc.v, s.hw.unc.v, s.uncErrs, Polls(s) > 0, uncMask)
  }

  /** What was pending and unmasked at the start is counted or pending still, and counted once
      the device has been polled. */
  ghost predicate FromStart(v0: word, v: word, counts: seq<nat>, polled: bool, mask: word) {
    && |counts| == 32
    && forall k :: 0 <= k < 32 && !Bit(mask, k) ==>
         && counts[k] + Pending(v, k) >= Pending(v0, k)
         && (polled ==> counts[k] >= Pending(v0, k))
  }

  lemma {:induction false} SumZeros(s: seq<nat>)
    requires forall i :: 0 <= i < |s| ==> s[i] == 0
    ensures Sum(s) == 0
  {
    if s != [] { SumZeros(s[..|s| - 1]); }
  }

  /** Counting starts in balance. */
  lemma UntouchedKept(s: Snap, corMask: word, uncMask: word)
    requires Untouched(s) && |s.hw.cor.raised| == |s.hw.unc.raised| == 32
    ensures Kept(s, corMask, uncMask) && Polls(s) == 0
  {
    SumZeros(s.corrErrs);
    SumZeros(s.uncErrs);
  }

  /** How often the device was polled since the start. */
  ghost function Polls(s: Snap): int { |s.hw.corReads| - |s.start.corReads| }

  /** Did poll number `j` read an unmasked error? */
  ghost predicate Bad(s: Snap, j: nat, corMask: word, uncMask: word)
    requires j < Polls(s) == |s.hw.uncReads| - |s.start.uncReads|
  {
    || AndNot(s.hw.corReads[|s.start.corReads| + j], corMask) != 0
    || AndNot(s.hw.uncReads[|s.start.uncReads| + j], uncMask) != 0
  }

  /** Every unmasked error of `v` has been counted. */
  ghost predicate Counted(v: word, before: seq<nat>, after: seq<nat>, mask: word) {
    && |before| == |after| == 32
    && forall k :: 0 <= k < 32 && !Bit(mask, k) ==> after[k] >= before[k] + Pending(v, k)
  }

  /** Everything unmasked that was pending has been counted. */
  ghost predicate Swept(s: Snap, t: Snap, corMask: word, uncMask: word) {
    && Counted(s.hw.cor.v, s.corrErrs, t.corrErrs, corMask)
    && Counted(s.hw.unc.v, s.uncErrs, t.uncErrs, uncMask)
  }

  /** One poll: what was pending is counted, each register was read once, and errors were counted
      exactly if what was read shows some. */
  ghost predicate PollStep(s: Snap, t: Snap, corMask: word, uncMask: word) {
    && Kept(s, corMask, uncMask) && Kept(t, corMask, uncMask)
    && t.start == s.start && t.errs >= s.errs && Swept(s, t, corMask, uncMask)
    && s.hw.corReads <= t.hw.corReads && s.hw.uncReads <= t.hw.uncReads && Polls(t) == Polls(s) + 1
    && (t.errs > s.errs <==> Bad(t, Polls(s), corMask, uncMask))
  }

  /** The bits that are polled are the unmasked ones. */
  lemma PolledBits(v0: word, v: word, mask: word, before: seq<nat>, after: seq<nat>)
    requires forall k :: 0 <= k < 32 ==> (Bit(v0, k) ==> Bit(v, k))
    requires |before| == |after| == 32
    requires forall k :: 0 <= k < 32 ==> after[k] == before[k] + Pending(AndNot(v, mask), k)
    ensures Counted(v0, before, after, mask)
  {
    forall k: nat | k < 32 ensures Bit(AndNot(v, mask), k) <==> Bit(v, k) && !Bit(mask, k) {
      BitOfAndNot(v, mask, k);
    }
  }

  lemma NoBits()
    ensures forall k: nat :: !Bit(0, k)
  {
    forall k: nat ensures !Bit(0, k) { BitOfZero(k); }
  }

  /** The register at `off`, and the other one. */
  ghost function Reg(hw: AerHw, off: int): Sts
    reads hw
  {
    if off == 0x10 then hw.cor else hw.unc
  }

  ghost function OtherReg(hw: AerHw, off: int): Sts
    reads hw
  {
    if off == 0x10 then hw.unc else hw.cor
  }

  /** Reads, counts and clears the errors of one register: `off` is 0x10 for the correctable and
      0x4 for the uncorrectable ones. `s0` is the register at the start. */
  method RegPoll(hw: AerHw, off: int, mask: word, before: seq<nat>, ghost s0: Sts)
    returns (v: word, counts: seq<nat>, errors: nat)
    requires hw.Valid() && off in {0x4, 0x10}
    requires Conserved(s0, Reg(hw, off), before, mask)
    modifies hw
    ensures hw.Valid()
    ensures Conserved(s0, Reg(hw, off), counts, mask) && Grew(old(OtherReg(hw, off)), OtherReg(hw, off))
    ensures Counted(old(Reg(hw, off)).v, before, counts, mask)
    ensures Sum(counts) == Sum(before) + errors && (errors > 0 <==> AndNot(v, mask) != 0)
    ensures hw.corReads == old(hw.corReads) + if off == 0x10 then [v] else []
    ensures hw.uncReads == old(hw.uncReads) + if off == 0x10 then [] else [v]
  {
    v := hw.Read32(off);
    counts, errors := before, 0;
    var err: word := AndNot(v, mask);
    ghost var s := Reg(hw, off);
    ConservedGrew(s0, old(Reg(hw, off)), s, before, mask);
    NoBits();
    if err != 0 {
      hw.Write32(off, err);
      counts, errors := CountBits(err, before);
      ConservedPolled(s0, s, Reg(hw, off), before, counts, mask, err);
    }
    PolledBits(old(Reg(hw, off)).v, v, mask, before, counts);
  }

  /** The same poll, seen from earlier on. */
  lemma CountedBefore(u: Sts, v: Sts, before: seq<nat>, after: seq<nat>, mask: word)
    requires Grew(u, v) && Counted(v.v, before, after, mask)
    ensures Counted(u.v, before, after, mask)
  {
  }

  lemma FromStartPolled(v0: word, v: word, v': word, before: seq<nat>, after: seq<nat>, polled: bool, mask: word)
    requires FromStart(v0, v, before, polled, mask) && Counted(v, before, after, mask)
    ensures FromStart(v0, v', after, true, mask)
  {
  }

  /** Reads, counts and clears one device's errors. The registers are addressed from the AER
      capability. */
  method ErrPoll(d: AppDev, corMask: word, uncMask: word) returns (errors: nat)
    requires Kept(SnapOf(d), corMask, uncMask)
    modifies d, d.dev.hw
    ensures PollStep(old(SnapOf(d)), SnapOf(d), corMask, uncMask)
    ensures d.errs == old(d.errs) + errors
  {
    var hw := d.dev.hw;
    ghost var s := SnapOf(d);
    var v, counts, n := RegPoll(hw, 0x10, corMask, d.corrErrs, d.start.cor);
    d.corrErrs, d.errs, errors := counts, d.errs + n, n;
    ghost var m := SnapOf(d);
    ConservedGrew(d.start.unc, s.hw.unc, m.hw.unc, d.uncErrs, uncMask);
    var w;
    w, counts, n := RegPoll(hw, 0x4, uncMask, d.uncErrs, d.start.unc);
    d.uncErrs, d.errs, errors := counts, d.errs + n, errors + n;
    ghost var t := SnapOf(d);
    ConservedGrew(d.start.cor, m.hw.cor, t.hw.cor, d.corrErrs, corMask);
    CountedBefore(s.hw.unc, m.hw.unc, s.uncErrs, t.uncErrs, uncMask);
    Polled(s, t, v, w, corMask, uncMask);
  }

  /** Both registers polled. */
  lemma Polled(s: Snap, t: Snap, v: word, w: word, corMask: word, uncMask: word)
    requires Kept(s, corMask, uncMask) && Swept(s, t, corMask, uncMask) && t.start == s.start
    requires t.errs >= s.errs && t.errs == Sum(t.corrErrs) + Sum(t.uncErrs)
    requires Conserved(t.start.cor, t.hw.cor, t.corrErrs, corMask)
    requires Conserved(t.start.unc, t.hw.unc, t.uncErrs, uncMask)
    requires t.hw.corReads == s.hw.corReads + [v] && t.hw.uncReads == s.hw.uncReads + [w]
    requires t.errs > s.errs <==> AndNot(v, corMask) != 0 || AndNot(w, uncMask) != 0
    ensures PollStep(s, t, corMask, uncMask)
  {
    FromStartPolled(s.start.cor.v, s.hw.cor.v, t.hw.cor.v, s.corrErrs, t.corrErrs, Polls(s) > 0, corMask);
    FromStartPolled(s.start.unc.v, s.hw.unc.v, t.hw.unc.v, s.uncErrs, t.uncErrs, Polls(s) > 0, uncMask);
  }

  // ---- All links ----

  /** A seat: one end of a link. */
  datatype Seat = Seat(link: nat, isPort: bool)

  /** The records of the links: `ports[k]` and `kids[k]` are link `k`'s. `rec` and `hw` say which
      seat each record and each device's registers have, so no two seats share them. */
  datatype Roster = Roster(ports: seq<AppDev>, kids: seq<AppDev>, rec: map<AppDev, Seat>, hw: map<AerHw, Seat>,
                           devs: set<PciDev>)

  type Crew = c: Roster | Sound(c) ghost witness Roster([], [], map[], map[], {})

  ghost predicate Sound(c: Roster) {
    && |c.kids| == |c.ports|
    && forall k :: 0 <= k < |c.ports| ==> Seated(c, c.ports[k], Seat(k, true)) && Seated(c, c.kids[k], Seat(k, false))
  }

  ghost predicate Seated(c: Roster, a: AppDev, s: Seat) {
    && a in c.rec && c.rec[a] == s && a.dev.hw in c.hw && c.hw[a.dev.hw] == s && a.dev in c.devs
  }

  /** The children hang where `d.Child()` finds them. */
  ghost predicate Paired(c: Crew)
    reads c.devs`lnkChild, c.devs`app
  {
    && |c.kids| == |c.ports|
    && forall k :: 0 <= k < |c.ports| ==> c.ports[k].dev in c.devs && ChildIs(c.devs, c.ports[k], c.kids[k])
  }

  ghost predicate ChildIs(devs: set<PciDev>, d: AppDev, c: AppDev)
    requires d.dev in devs
    reads devs`lnkChild, devs`app
  {
    d.dev.lnkChild != null && d.dev.lnkChild in devs && d.dev.lnkChild.app == c
  }

  /** What is known of a link under the masks it is polled with: the records of port and child, for
      each poll whether either showed an error, and how many errors there were in all. */
  datatype LinkBook = LinkBook(corMask: word, uncMask: word, port: Snap, child: Snap, log: seq<bool>, errs: nat)

  /** Port and child are in balance and were polled equally often. */
  ghost predicate LinkOk(l: LinkBook) {
    && Kept(l.port, l.corMask, l.uncMask) && Kept(l.child, l.corMask, l.uncMask)
    && Polls(l.port) == Polls(l.child) == |l.log|
    && (forall j :: 0 <= j < |l.log| ==>
         (l.log[j] <==> Bad(l.port, j, l.corMask, l.uncMask) || Bad(l.child, j, l.corMask, l.uncMask)))
    && l.errs == l.port.errs + l.child.errs
  }

  /** Both ends of a link were polled, and `e` errors found. */
  ghost predicate LinkStep(l: LinkBook, p: Snap, c: Snap, e: nat) {
    && PollStep(l.port, p, l.corMask, l.uncMask) && PollStep(l.child, c, l.corMask, l.uncMask)
    && e == p.errs - l.port.errs + c.errs - l.child.errs
  }

  function Next(l: LinkBook, p: Snap, c: Snap, e: nat): LinkBook {
    l.(port := p, child := c, log := l.log + [e > 0], errs := l.errs + e)
  }

  /** A link's poll: its log is longer by one entry. */
  lemma LinkKeeps(l: LinkBook, p: Snap, c: Snap, e: nat)
    requires LinkOk(l) && LinkStep(l, p, c, e)
    ensures LinkOk(Next(l, p, c, e))
  {
  }

  /** Two records are polled. */
  method PollPair(d: AppDev, ghost c: AppDev, ghost l: LinkBook, corMask: word, uncMask: word)
    returns (lnkErr: nat)
    requires d != c && d.dev.hw != c.dev.hw && d.dev.lnkChild != null && d.dev.lnkChild.app == c
    requires LinkOk(l) && l.port == SnapOf(d) && l.child == SnapOf(c)
    requires l.corMask == corMask && l.uncMask == uncMask
    modifies d, d.dev.hw, c, c.dev.hw
    ensures LinkStep(l, SnapOf(d), SnapOf(c), lnkErr)
  {
    lnkErr := ErrPoll(d, corMask, uncMask);
    var child := d.dev.lnkChild.app as AppDev;
    var e := ErrPoll(child, corMask, uncMask);
    lnkErr := lnkErr + e;
  }

  /** All links' books. */
  type Book = v: seq<LinkBook> | LinksOk(v, |v|) ghost witness []

  ghost predicate LinksOk(v: seq<LinkBook>, n: nat)
    requires n <= |v|
  {
    n == 0 || (LinksOk(v, n - 1) && LinkOk(v[n - 1]))
  }

  lemma {:induction false} LinkIsOk(v: seq<LinkBook>, n: nat, k: nat)
    requires k < n <= |v| && LinksOk(v, n)
    ensures LinkOk(v[k])
    decreases n
  {
    if k < n - 1 { LinkIsOk(v, n - 1, k); }
  }

  lemma {:induction false} LinksUpdated(v: seq<LinkBook>, n: nat, k: nat, l: LinkBook)
    requires n <= |v| && k < |v| && LinksOk(v, n) && LinkOk(l)
    ensures LinksOk(v[k := l], n)
    decreases n
  {
    if n > 0 { LinksUpdated(v, n - 1, k, l); }
  }

  /** The counters' total over the first `n` links. */
  ghost function Total(v: seq<LinkBook>, n: nat): nat
    requires n <= |v|
  {
    if n == 0 then 0 else Total(v, n - 1) + v[n - 1].errs
  }

  lemma {:induction false} TotalUpdate(v: seq<LinkBook>, n: nat, k: nat, l: LinkBook)
    requires k < |v| && n <= |v| && l.errs >= v[k].errs
    ensures Total(v[k := l], n) == Total(v, n) + if k < n then l.errs - v[k].errs else 0
    decreases n
  {
    if n > 0 { TotalUpdate(v, n - 1, k, l); }
  }

  /** One more entry in link `k`'s log. */
  ghost predicate LogGrows(v: seq<LinkBook>, w: seq<LinkBook>, k: nat, e: bool) {
    && k < |v| == |w| && w[k].log == v[k].log + [e]
    && forall m :: 0 <= m < |v| && m != k ==> w[m].log == v[m].log
  }

  /** The books after a poll of link `k`. */
  lemma BookStep(v: Book, k: nat, l: LinkBook, e: nat)
    requires k < |v| && LinkOk(l) && l.log == v[k].log + [e > 0] && l.errs == v[k].errs + e
    ensures LinksOk(v[k := l], |v|) && Total(v[k := l], |v|) == Total(v, |v|) + e
    ensures LogGrows(v, v[k := l], k, e > 0)
  {
    LinksUpdated(v, |v|, k, l);
    TotalUpdate(v, |v|, k, l);
    OneGrows(v, k, l, e > 0);
  }

  lemma OneGrows(v: seq<LinkBook>, k: nat, l: LinkBook, e: bool)
    requires k < |v| && l.log == v[k].log + [e]
    ensures LogGrows(v, v[k := l], k, e)
  {
  }

  /** ... as the books of the new state. */
  lemma BooksNow(v: Book, c: Crew, k: nat, l: LinkBook, e: nat, corMask: word, uncMask: word) returns (w: Book)
    requires k < |v| == |c.ports| && LinkOk(l) && l.log == v[k].log + [e > 0] && l.errs == v[k].errs + e
    requires LinkNow(l, c, k, corMask, uncMask)
    requires forall m :: 0 <= m < |v| && m != k ==> LinkNow(v[m], c, m, corMask, uncMask)
    ensures Now(w, c, corMask, uncMask) && Total(w, |w|) == Total(v, |v|) + e && LogGrows(v, w, k, e > 0)
  {
    BookStep(v, k, l, e);
    NowUpdated(v, c, k, l, corMask, uncMask);
    w := v[k := l];
  }

  ghost predicate LinkNow(l: LinkBook, c: Crew, k: nat, corMask: word, uncMask: word)
    requires k < |c.ports|
    reads c.rec.Keys, c.hw.Keys
  {
    assert Seated(c, c.ports[k], Seat(k, true)) && Seated(c, c.kids[k], Seat(k, false));
    && l.corMask == corMask && l.uncMask == uncMask
    && l.port == SnapOf(c.ports[k]) && l.child == SnapOf(c.kids[k])
  }

  /** The books are those of the present. */
  ghost predicate Now(v: seq<LinkBook>, c: Crew, corMask: word, uncMask: word)
    reads c.rec.Keys, c.hw.Keys
  {
    |v| == |c.ports| && forall k :: 0 <= k < |c.ports| ==> LinkNow(v[k], c, k, corMask, uncMask)
  }

  /** Both ends of link number `k`; the other links stay as they are. */
  method PollEnds(ghost c: Crew, ghost k: nat, d: AppDev, corMask: word, uncMask: word, ghost v: seq<LinkBook>)
    returns (lnkErr: nat, ghost l: LinkBook)
    requires k < |c.ports| && c.ports[k] == d && Paired(c)
    requires Now(v, c, corMask, uncMask) && LinkOk(v[k])
    modifies c.rec.Keys, c.hw.Keys
    ensures LinkOk(l) && l.log == v[k].log + [lnkErr > 0] && l.errs == v[k].errs + lnkErr
    ensures LinkNow(l, c, k, corMask, uncMask) && Paired(c)
    ensures forall m :: 0 <= m < |v| && m != k ==> LinkNow(v[m], c, m, corMask, uncMask)
  {
    ghost var child := c.kids[k];
    assert LinkNow(v[k], c, k, corMask, uncMask) && ChildIs(c.devs, d, child);
    assert Seated(c, d, Seat(k, true)) && Seated(c, child, Seat(k, false));
    forall m | 0 <= m < |v| && m != k
      ensures c.ports[m] !in {d, child} && c.kids[m] !in {d, child}
      ensures c.ports[m].dev.hw !in {d.dev.hw, child.dev.hw} && c.kids[m].dev.hw !in {d.dev.hw, child.dev.hw}
    {
      OtherSeats(c, k, m);
    }
    lnkErr := PollPair(d, child, v[k], corMask, uncMask);
    LinkKeeps(v[k], SnapOf(d), SnapOf(child), lnkErr);
    l := Next(v[k], SnapOf(d), SnapOf(child), lnkErr);
  }

  /** Both ends of link number `k`, in the books. */
  method PollLink(links: seq<AppDev>, ghost c: Crew, ghost k: nat, d: AppDev,
                  corMask: word, uncMask: word, ghost v: Book)
    returns (lnkErr: nat, ghost w: Book)
    requires c.ports == links && Paired(c) && Now(v, c, corMask, uncMask)
    requires k < |links| && links[k] == d
    modifies c.rec.Keys, c.hw.Keys
    ensures Now(w, c, corMask, uncMask) && Paired(c) && Total(w, |w|) == Total(v, |v|) + lnkErr
    ensures LogGrows(v, w, k, lnkErr > 0)
  {
    LinkIsOk(v, |v|, k);
    ghost var l;
    lnkErr, l := PollEnds(c, k, d, corMask, uncMask, v);
    w := BooksNow(v, c, k, l, lnkErr, corMask, uncMask);
  }

  lemma NowUpdated(v: seq<LinkBook>, c: Crew, k: nat, l: LinkBook, corMask: word, uncMask: word)
    requires k < |v| == |c.ports| && LinkNow(l, c, k, corMask, uncMask)
    requires forall m :: 0 <= m < |v| && m != k ==> LinkNow(v[m], c, m, corMask, uncMask)
    ensures Now(v[k := l], c, corMask, uncMask)
  {
  }

  lemma OtherSeats(c: Crew, k: nat, m: nat)
    requires k < |c.ports| && m < |c.ports| && m != k
    ensures forall x, y :: x in {c.ports[k], c.kids[k]} && y in {c.ports[m], c.kids[m]} ==>
      x != y && x.dev.hw != y.dev.hw
  {
    assert Seated(c, c.ports[k], Seat(k, true)) && Seated(c, c.kids[k], Seat(k, false));
    assert Seated(c, c.ports[m], Seat(m, true)) && Seated(c, c.kids[m], Seat(m, false));
  }

  // ---- The two phases of an iteration ----

  /** A map lookup with Go's false default. */
  predicate Had(prev: map<AppDev, bool>, d: AppDev) { d in prev && prev[d] }

  /** `list` are the links at the places `at`; `pos[k]` is link `k`'s place in it, or -1. */
  ghost predicate Lists(links: seq<AppDev>, list: seq<AppDev>, at: seq<nat>, pos: seq<int>) {
    && |list| == |at| && |pos| == |links|
    && (forall j :: 0 <= j < |at| ==> at[j] < |links| && list[j] == links[at[j]] && pos[at[j]] == j)
    && (forall k :: 0 <= k < |links| && pos[k] >= 0 ==> pos[k] < |at| && at[pos[k]] == k)
  }

  ghost predicate NoDuplicates(links: seq<AppDev>) {
    forall i, j :: 0 <= i < |links| && 0 <= j < |links| && i != j ==> links[i] != links[j]
  }

  lemma LinksDiffer(c: Crew)
    ensures NoDuplicates(c.ports)
  {
    forall i, j | 0 <= i < |c.ports| && 0 <= j < |c.ports| && i != j ensures c.ports[i] != c.ports[j] {
      assert Seated(c, c.ports[i], Seat(i, true)) && Seated(c, c.ports[j], Seat(j, true));
    }
  }

  /** The slow phase for one link: polled once; chosen for the fast phase if it showed an error
      now or was remembered; and remembered exactly if it showed one now. */
  ghost predicate SlowBook(log0: seq<bool>, log: seq<bool>, chosen: bool, had0: bool, had: bool) {
    && |log| == |log0| + 1 && log0 <= log
    && (chosen <==> log[|log0|] || had0) && (had <==> log[|log0|])
  }

  /** The slow phase after the first `n` links. */
  ghost predicate SlowBooks(links: seq<AppDev>, n: nat, v0: seq<LinkBook>, v: seq<LinkBook>, pos: seq<int>,
                            prev0: map<AppDev, bool>, prev: map<AppDev, bool>) {
    && n <= |links| == |v0| == |v| == |pos|
    && (forall k :: 0 <= k < n ==>
         SlowBook(v0[k].log, v[k].log, pos[k] >= 0, Had(prev0, links[k]), Had(prev, links[k])))
    && (forall k :: n <= k < |links| ==>
         v[k].log == v0[k].log && pos[k] < 0 && Had(prev, links[k]) == Had(prev0, links[k]))
  }

  /** One more link in the books. */
  lemma SlowBooksOn(links: seq<AppDev>, n: nat, v0: seq<LinkBook>, v: seq<LinkBook>, pos: seq<int>,
                    prev0: map<AppDev, bool>, prev: map<AppDev, bool>, e: bool, w: seq<LinkBook>, p: int)
    requires SlowBooks(links, n, v0, v, pos, prev0, prev) && n < |links| && NoDuplicates(links)
    requires LogGrows(v, w, n, e) && (p >= 0 <==> e || Had(prev, links[n]))
    ensures SlowBooks(links, n + 1, v0, w, pos[n := p], prev0, prev[links[n] := e])
  {
  }

  /** The slow phase's bookkeeping for one polled link. */
  method NoteLink(links: seq<AppDev>, k: nat, lnkErr: nat, linksWithErr: seq<AppDev>, prev1: map<AppDev, bool>,
                  ghost prev0: map<AppDev, bool>, ghost at0: seq<nat>, ghost pos0: seq<int>, ghost b0: seq<LinkBook>,
                  ghost v0: seq<LinkBook>, ghost v: seq<LinkBook>)
    returns (chosen: seq<AppDev>, prev: map<AppDev, bool>, ghost at: seq<nat>, ghost pos: seq<int>)
    requires NoDuplicates(links) && LogGrows(v0, v, k, lnkErr > 0)
    requires k < |links| && SlowBooks(links, k, b0, v0, pos0, prev0, prev1) && Lists(links, linksWithErr, at0, pos0)
    ensures SlowBooks(links, k + 1, b0, v, pos, prev0, prev) && Lists(links, chosen, at, pos)
  {
    var d := links[k];
    chosen, prev, at, pos := linksWithErr, prev1, at0, pos0[k := -1];
    if lnkErr > 0 || Had(prev, d) {
      chosen, at, pos := chosen + [d], at + [k], pos0[k := |at0|];
      prev := prev[d := lnkErr > 0];
    }
    prev := prev[d := lnkErr > 0];
    SlowBooksOn(links, k, b0, v0, pos0, prev0, prev1, lnkErr > 0, v, pos[k]);
  }

  /** The slow phase for one link. */
  method SlowStep(links: seq<AppDev>, ghost c: Crew, k: nat, linksWithErr: seq<AppDev>, prev1: map<AppDev, bool>,
                  ghost prev0: map<AppDev, bool>, ghost at0: seq<nat>, ghost pos0: seq<int>, ghost b0: seq<LinkBook>,
                  corMask: word, uncMask: word, ghost v0: Book)
    returns (lnkErr: nat, chosen: seq<AppDev>, prev: map<AppDev, bool>, ghost at: seq<nat>, ghost pos: seq<int>,
             ghost v: Book)
    requires NoDuplicates(links)
    requires c.ports == links && Paired(c) && Now(v0, c, corMask, uncMask)
    requires k < |links| && SlowBooks(links, k, b0, v0, pos0, prev0, prev1) && Lists(links, linksWithErr, at0, pos0)
    modifies c.rec.Keys, c.hw.Keys
    ensures Now(v, c, corMask, uncMask) && Paired(c) && Total(v, |v|) == Total(v0, |v0|) + lnkErr
    ensures SlowBooks(links, k + 1, b0, v, pos, prev0, prev) && Lists(links, chosen, at, pos)
  {
    lnkErr, v := PollLink(links, c, k, links[k], corMask, uncMask, v0);
    chosen, prev, at, pos := NoteLink(links, k, lnkErr, linksWithErr, prev1, prev0, at0, pos0, b0, v0, v);
  }

  /** First phase: every link once. `pos` tells the links with errors. */
  method SlowPoll(links: seq<AppDev>, ghost c: Crew, prev0: map<AppDev, bool>,
                  corMask: word, uncMask: word, ghost v0: Book)
    returns (errors: nat, linksWithErr: seq<AppDev>, prev: map<AppDev, bool>, ghost at: seq<nat>,
             ghost pos: seq<int>, ghost v: Book)
    requires c.ports == links && Paired(c) && Now(v0, c, corMask, uncMask)
    modifies c.rec.Keys, c.hw.Keys
    ensures Now(v, c, corMask, uncMask) && Paired(c) && Total(v, |v|) == Total(v0, |v0|) + errors
    ensures SlowBooks(links, |links|, v0, v, pos, prev0, prev) && Lists(links, linksWithErr, at, pos)
  {
    LinksDiffer(c);
    errors, linksWithErr, prev, at, pos, v := 0, [], prev0, [], seq(|links|, _ => -1), v0;
    for k := 0 to |links|
      invariant Now(v, c, corMask, uncMask) && Paired(c) && Total(v, |v|) == Total(v0, |v0|) + errors
      invariant SlowBooks(links, k, v0, v, pos, prev0, prev) && Lists(links, linksWithErr, at, pos)
    {
      var lnkErr;
      lnkErr, linksWithErr, prev, at, pos, v :=
        SlowStep(links, c, k, linksWithErr, prev, prev0, at, pos, v0, corMask, uncMask, v);
      errors := errors + lnkErr;
    }
  }

  /** Some poll from number `from` to before number `to` showed an error. */
  ghost predicate AnyIn(log: seq<bool>, from: nat, to: nat) { exists j :: from <= j < to && j < |log| && log[j] }

  ghost predicate Any(log: seq<bool>, from: nat) { AnyIn(log, from, |log|) }

  /** The fast phase for one link: polled `n` times; an error is remembered, and nothing is
      forgotten. */
  ghost predicate FastBook(log0: seq<bool>, log: seq<bool>, n: nat, had0: bool, had: bool) {
    && |log| == |log0| + n && log0 <= log && (had <==> had0 || Any(log, |log0|))
  }

  /** The fast phase: the chosen links were polled `n` times, the first `j` of them once more, and
      the others not at all. */
  ghost predicate FastBooks(links: seq<AppDev>, pos: seq<int>, j: nat, n: nat, v0: seq<LinkBook>,
                            v: seq<LinkBook>, prev0: map<AppDev, bool>, prev: map<AppDev, bool>) {
    && |links| == |v0| == |v| == |pos|
    && forall k :: 0 <= k < |links| ==>
         FastBook(v0[k].log, v[k].log, Times(pos[k], j, n), Had(prev0, links[k]), Had(prev, links[k]))
  }

  ghost function Times(p: int, j: nat, n: nat): nat { if p < 0 then 0 else if p < j then n + 1 else n }

  lemma FastBookOn(log0: seq<bool>, log: seq<bool>, n: nat, had0: bool, had: bool, e: bool)
    requires FastBook(log0, log, n, had0, had)
    ensures FastBook(log0, log + [e], n + 1, had0, had || e)
  {
    var next := log + [e];
    if Any(log, |log0|) {
      var j :| |log0| <= j < |log| && log[j];
      assert next[j];
    }
    assert next[|log|] == e;
    if Any(next, |log0|) {
      var j :| |log0| <= j < |next| && next[j];
      assert j < |log| ==> log[j];
    }
  }

  /** One more chosen link polled. */
  lemma FastBooksOn(links: seq<AppDev>, pos: seq<int>, j: nat, n: nat, v0: seq<LinkBook>,
                    v: seq<LinkBook>, prev0: map<AppDev, bool>, prev: map<AppDev, bool>, k: nat, e: bool,
                    w: seq<LinkBook>)
    requires FastBooks(links, pos, j, n, v0, v, prev0, prev) && NoDuplicates(links)
    requires LogGrows(v, w, k, e) && k < |links| && pos[k] == j
    requires forall m :: 0 <= m < |links| && pos[m] == j ==> m == k
    ensures FastBooks(links, pos, j + 1, n, v0, w, prev0, if e then prev[links[k] := true] else prev)
  {
    FastBookOn(v0[k].log, v[k].log, n, Had(prev0, links[k]), Had(prev, links[k]), e);
    var next := if e then prev[links[k] := true] else prev;
    forall m | 0 <= m < |links| && m != k
      ensures FastBook(v0[m].log, w[m].log, Times(pos[m], j + 1, n), Had(prev0, links[m]), Had(next, links[m]))
    {
      assert FastBook(v0[m].log, v[m].log, Times(pos[m], j, n), Had(prev0, links[m]), Had(prev, links[m]));
    }
  }

  /** A round is complete. */
  lemma RoundDone(links: seq<AppDev>, pos: seq<int>, j: nat, n: nat, v0: seq<LinkBook>,
                  v: seq<LinkBook>, prev0: map<AppDev, bool>, prev: map<AppDev, bool>)
    requires FastBooks(links, pos, j, n, v0, v, prev0, prev) && forall k :: 0 <= k < |pos| ==> pos[k] < j
    ensures FastBooks(links, pos, 0, n + 1, v0, v, prev0, prev)
  {
    forall k | 0 <= k < |links|
      ensures FastBook(v0[k].log, v[k].log, Times(pos[k], 0, n + 1), Had(prev0, links[k]), Had(prev, links[k]))
    {
      assert FastBook(v0[k].log, v[k].log, Times(pos[k], j, n), Had(prev0, links[k]), Had(prev, links[k]));
    }
  }

  /** The fast phase's poll of chosen link number `j`. */
  method FastStep(links: seq<AppDev>, ghost c: Crew, chosen: seq<AppDev>, ghost at: seq<nat>, ghost pos: seq<int>,
                  j: nat, ghost n: nat, ghost b0: seq<LinkBook>, ghost prev0: map<AppDev, bool>,
                  prev1: map<AppDev, bool>, corMask: word, uncMask: word, ghost v0: Book)
    returns (lnkErr: nat, prev: map<AppDev, bool>, ghost v: Book)
    requires NoDuplicates(links)
    requires c.ports == links && Paired(c) && Now(v0, c, corMask, uncMask)
    requires j < |chosen| && Lists(links, chosen, at, pos) && FastBooks(links, pos, j, n, b0, v0, prev0, prev1)
    modifies c.rec.Keys, c.hw.Keys
    ensures Now(v, c, corMask, uncMask) && Paired(c) && Total(v, |v|) == Total(v0, |v0|) + lnkErr
    ensures FastBooks(links, pos, j + 1, n, b0, v, prev0, prev)
  {
    var d := chosen[j];
    prev := prev1;
    lnkErr, v := PollLink(links, c, at[j], d, corMask, uncMask, v0);
    FastBooksOn(links, pos, j, n, b0, v0, prev0, prev, at[j], lnkErr > 0, v);
    if lnkErr > 0 {
      prev := prev[d := true];
    }
  }

  /** One round over the chosen links; `b0` are the books before the first round. */
  method FastRound(links: seq<AppDev>, ghost c: Crew, chosen: seq<AppDev>, ghost at: seq<nat>, ghost pos: seq<int>,
                   ghost n: nat, ghost b0: seq<LinkBook>, ghost prev0: map<AppDev, bool>,
                   prev1: map<AppDev, bool>, corMask: word, uncMask: word, ghost v0: Book)
    returns (errors: nat, prev: map<AppDev, bool>, ghost v: Book)
    requires c.ports == links && Paired(c) && Now(v0, c, corMask, uncMask)
    requires Lists(links, chosen, at, pos) && FastBooks(links, pos, 0, n, b0, v0, prev0, prev1)
    modifies c.rec.Keys, c.hw.Keys
    ensures Now(v, c, corMask, uncMask) && Paired(c) && Total(v, |v|) == Total(v0, |v0|) + errors
    ensures FastBooks(links, pos, 0, n + 1, b0, v, prev0, prev)
  {
    LinksDiffer(c);
    errors, prev, v := 0, prev1, v0;
    for j := 0 to |chosen|
      invariant Now(v, c, corMask, uncMask) && Paired(c) && Total(v, |v|) == Total(v0, |v0|) + errors
      invariant FastBooks(links, pos, j, n, b0, v, prev0, prev)
    {
      var lnkErr;
      lnkErr, prev, v := FastStep(links, c, chosen, at, pos, j, n, b0, prev0, prev, corMask, uncMask, v);
      errors := errors + lnkErr;
    }
    RoundDone(links, pos, |chosen|, n, b0, v, prev0, prev);
  }

  /** Second phase: the chosen links, `rounds` times over. */
  method FastPoll(links: seq<AppDev>, ghost c: Crew, chosen: seq<AppDev>, ghost at: seq<nat>, ghost pos: seq<int>,
                  prev0: map<AppDev, bool>, rounds: nat, corMask: word, uncMask: word, ghost v0: Book)
    returns (errors: nat, prev: map<AppDev, bool>, ghost v: Book)
    requires c.ports == links && Paired(c) && Now(v0, c, corMask, uncMask) && |v0| == |links|
    requires Lists(links, chosen, at, pos)
    modifies c.rec.Keys, c.hw.Keys
    ensures Now(v, c, corMask, uncMask) && Paired(c) && Total(v, |v|) == Total(v0, |v0|) + errors
    ensures FastBooks(links, pos, 0, rounds, v0, v, prev0, prev)
  {
    errors, prev, v := 0, prev0, v0;
    for r := 0 to rounds
      invariant Now(v, c, corMask, uncMask) && Paired(c) && Total(v, |v|) == Total(v0, |v0|) + errors
      invariant FastBooks(links, pos, 0, r, v0, v, prev0, prev)
    {
      var e;
      e, prev, v := FastRound(links, c, chosen, at, pos, r, v0, prev0, prev, corMask, uncMask, v);
      errors := errors + e;
    }
  }

  // ---- The monitoring loop ----

  /** One iteration for one link: polled once, and `rounds` times more if that showed an error or
      the link was remembered; remembered from now on exactly if any of these polls showed one. */
  ghost predicate IterBook(log0: seq<bool>, log: seq<bool>, rounds: nat, had0: bool, had: bool) {
    && log0 < log && |log| == |log0| + 1 + (if log[|log0|] || had0 then rounds else 0)
    && (had <==> Any(log, |log0|))
  }

  lemma BothPhases(log0: seq<bool>, log1: seq<bool>, log: seq<bool>, chosen: bool, rounds: nat,
                   had0: bool, had1: bool, had: bool)
    requires SlowBook(log0, log1, chosen, had0, had1)
    requires FastBook(log1, log, if chosen then rounds else 0, had1, had)
    ensures IterBook(log0, log, rounds, had0, had)
  {
    assert log[|log0|] == log1[|log0|];
    if Any(log, |log1|) {
      var j :| |log1| <= j < |log| && log[j];
      assert |log0| <= j;
    }
  }

  ghost predicate IterBooks(links: seq<AppDev>, v0: seq<LinkBook>, v: seq<LinkBook>, rounds: nat,
                            prev0: map<AppDev, bool>, prev: map<AppDev, bool>) {
    && |links| == |v0| == |v|
    && forall k :: 0 <= k < |links| ==>
         IterBook(v0[k].log, v[k].log, rounds, Had(prev0, links[k]), Had(prev, links[k]))
  }

  lemma PhasesDone(links: seq<AppDev>, v0: seq<LinkBook>, v1: seq<LinkBook>, v: seq<LinkBook>, pos: seq<int>,
                   rounds: nat, prev0: map<AppDev, bool>, prev1: map<AppDev, bool>, prev: map<AppDev, bool>)
    requires SlowBooks(links, |links|, v0, v1, pos, prev0, prev1)
    requires FastBooks(links, pos, 0, rounds, v1, v, prev1, prev)
    ensures IterBooks(links, v0, v, rounds, prev0, prev)
  {
    forall k | 0 <= k < |links|
      ensures IterBook(v0[k].log, v[k].log, rounds, Had(prev0, links[k]), Had(prev, links[k]))
    {
      BothPhases(v0[k].log, v1[k].log, v[k].log, pos[k] >= 0, rounds,
                 Had(prev0, links[k]), Had(prev1, links[k]), Had(prev, links[k]));
    }
  }

  /** Without chosen links nothing happens in the second phase. */
  lemma NoFastPhase(links: seq<AppDev>, pos: seq<int>, rounds: nat, v: seq<LinkBook>, prev: map<AppDev, bool>)
    requires |links| == |v| == |pos| && forall k :: 0 <= k < |pos| ==> pos[k] < 0
    ensures FastBooks(links, pos, 0, rounds, v, v, prev, prev)
  {
  }

  /** One iteration of the monitoring loop. */
  method Iterate(links: seq<AppDev>, ghost c: Crew, corMask: word, uncMask: word, rounds: nat,
                 prev0: map<AppDev, bool>, ghost v0: Book)
    returns (errors: nat, prev: map<AppDev, bool>, ghost v: Book)
    requires c.ports == links && Paired(c) && Now(v0, c, corMask, uncMask)
    modifies c.rec.Keys, c.hw.Keys
    ensures Now(v, c, corMask, uncMask) && Paired(c) && Total(v, |v|) == Total(v0, |v0|) + errors
    ensures IterBooks(links, v0, v, rounds, prev0, prev)
  {
    var linksWithErr, prev1;
    ghost var at, pos, v1;
    errors, linksWithErr, prev1, at, pos, v1 := SlowPoll(links, c, prev0, corMask, uncMask, v0);
    prev, v := prev1, v1;
    if |linksWithErr| > 0 {
      var more;
      more, prev, v := FastPoll(links, c, linksWithErr, at, pos, prev1, rounds, corMask, uncMask, v1);
      errors := errors + more;
    } else {
      NoFastPhase(links, pos, rounds, v1, prev1);
    }
    PhasesDone(links, v0, v1, v, pos, rounds, prev0, prev1, prev);
  }

  /** The number of the poll of a link with which iteration `i` begins, in a link's log: every
      iteration polls once, and `rounds(i)` times more if the link is fast in it. */
  ghost function Begin(log: seq<bool>, rounds: nat -> nat, i: nat): nat
    decreases i, 0
  {
    if i == 0 then 0
    else Begin(log, rounds, i - 1) + 1 + if Fast(log, rounds, i - 1) then rounds(i - 1) else 0
  }

  /** Who is polled fast in iteration `i`: exactly the links with an error in its slow poll, or in
      either phase of the iteration before. */
  ghost predicate Fast(log: seq<bool>, rounds: nat -> nat, i: nat)
    decreases i, 1
  {
    var b := Begin(log, rounds, i);
    AnyIn(log, b, b + 1) || (i > 0 && AnyIn(log, Begin(log, rounds, i - 1), b))
  }

  /** A link was polled exactly as often as the rule says, over `n` iterations. */
  ghost predicate Follows(log: seq<bool>, rounds: nat -> nat, n: nat) { |log| == Begin(log, rounds, n) }

  /** A link without errors is polled once an iteration, ... */
  lemma {:induction false} QuietLink(log: seq<bool>, rounds: nat -> nat, n: nat)
    requires forall j :: 0 <= j < |log| ==> !log[j]
    ensures Begin(log, rounds, n) == n
    decreases n
  {
    if n > 0 {
      QuietLink(log, rounds, n - 1);
      if n > 1 { QuietLink(log, rounds, n - 2); }
    }
  }

  function SumRounds(rounds: nat -> nat, n: nat): nat {
    if n == 0 then 0 else SumRounds(rounds, n - 1) + rounds(n - 1)
  }

  /** ... and one that shows an error whenever it is polled is polled fast in every iteration. */
  lemma {:induction false} NoisyLink(log: seq<bool>, rounds: nat -> nat, n: nat)
    requires (forall j :: 0 <= j < |log| ==> log[j]) && Begin(log, rounds, n) <= |log|
    ensures Begin(log, rounds, n) == n + SumRounds(rounds, n)
    decreases n
  {
    if n > 0 {
      var b := Begin(log, rounds, n - 1);
      NoisyLink(log, rounds, n - 1);
      assert AnyIn(log, b, b + 1) by { assert log[b]; }
    }
  }

  /** What is yet to come does not matter. */
  lemma {:induction false} BeginStays(log: seq<bool>, more: seq<bool>, rounds: nat -> nat, i: nat)
    requires log <= more && Begin(log, rounds, i) <= |log|
    ensures Begin(more, rounds, i) == Begin(log, rounds, i)
    ensures i > 0 ==> Begin(more, rounds, i - 1) == Begin(log, rounds, i - 1)
    decreases i
  {
    if i > 0 {
      BeginStays(log, more, rounds, i - 1);
      var b := Begin(log, rounds, i - 1);
      AnyStays(log, more, b, b + 1);
      if i > 1 { AnyStays(log, more, Begin(log, rounds, i - 2), b); }
    }
  }

  lemma AnyStays(log: seq<bool>, more: seq<bool>, from: nat, to: nat)
    requires log <= more && to <= |log|
    ensures AnyIn(more, from, to) <==> AnyIn(log, from, to)
  {
    if AnyIn(more, from, to) {
      var j :| from <= j < to && j < |more| && more[j];
      assert log[j];
    }
    if AnyIn(log, from, to) {
      var j :| from <= j < to && j < |log| && log[j];
      assert more[j];
    }
  }

  /** A link's log and memory after `n` iterations. */
  ghost predicate OnTrack(log: seq<bool>, had: bool, rounds: nat -> nat, n: nat) {
    && Follows(log, rounds, n)
    && (had <==> n > 0 && Any(log, Begin(log, rounds, n - 1)))
  }

  /** One more iteration. */
  lemma StaysOnTrack(log0: seq<bool>, log: seq<bool>, had0: bool, had: bool, rounds: nat -> nat, n: nat)
    requires OnTrack(log0, had0, rounds, n) && IterBook(log0, log, rounds(n), had0, had)
    ensures OnTrack(log, had, rounds, n + 1)
  {
    BeginStays(log0, log, rounds, n);
    var b := |log0|;
    assert AnyIn(log, b, b + 1) <==> log[b];
    if n > 0 { AnyStays(log0, log, Begin(log0, rounds, n - 1), b); }
  }

  ghost predicate AllOnTrack(links: seq<AppDev>, v: seq<LinkBook>, prev: map<AppDev, bool>,
                             rounds: nat -> nat, n: nat) {
    |links| == |v| && forall k :: 0 <= k < |links| ==> OnTrack(v[k].log, Had(prev, links[k]), rounds, n)
  }

  lemma AllStayOnTrack(links: seq<AppDev>, v0: seq<LinkBook>, v: seq<LinkBook>, prev0: map<AppDev, bool>,
                       prev: map<AppDev, bool>, rounds: nat -> nat, n: nat)
    requires AllOnTrack(links, v0, prev0, rounds, n) && IterBooks(links, v0, v, rounds(n), prev0, prev)
    ensures AllOnTrack(links, v, prev, rounds, n + 1)
  {
    forall k | 0 <= k < |links| ensures OnTrack(v[k].log, Had(prev, links[k]), rounds, n + 1) {
      StaysOnTrack(v0[k].log, v[k].log, Had(prev0, links[k]), Had(prev, links[k]), rounds, n);
    }
  }

  /** The monitoring loop, for any number of iterations. `rounds(i)` is how often the fast loop of
      iteration `i` goes round before its second is over. */
  method MonLoop(links: seq<AppDev>, ghost c: Crew, corMask: word, uncMask: word, nbIter: nat,
                 rounds: nat -> nat, ghost v0: Book)
    returns (totalErrors: nat, ghost v: Book)
    requires c.ports == links && Paired(c) && Now(v0, c, corMask, uncMask)
    requires forall k :: 0 <= k < |v0| ==> v0[k].log == [] && v0[k].errs == 0
    modifies c.rec.Keys, c.hw.Keys
    ensures Now(v, c, corMask, uncMask) && totalErrors == Total(v, |v|)
    ensures forall k :: 0 <= k < |v| ==> LinkOk(v[k]) && Follows(v[k].log, rounds, nbIter)
  {
    NothingDone(links, v0, rounds);
    ghost var prev;
    totalErrors, prev, v := MonRounds(links, c, corMask, uncMask, nbIter, rounds, v0);
    TracksFollow(links, v, prev, rounds, nbIter);
  }

  /** The loop itself: every link stays on track. */
  method MonRounds(links: seq<AppDev>, ghost c: Crew, corMask: word, uncMask: word, nbIter: nat,
                   rounds: nat -> nat, ghost v0: Book)
    returns (totalErrors: nat, prev: map<AppDev, bool>, ghost v: Book)
    requires c.ports == links && Paired(c) && Now(v0, c, corMask, uncMask)
    requires AllOnTrack(links, v0, map[], rounds, 0) && Total(v0, |v0|) == 0
    modifies c.rec.Keys, c.hw.Keys
    ensures Now(v, c, corMask, uncMask) && totalErrors == Total(v, |v|)
    ensures AllOnTrack(links, v, prev, rounds, nbIter)
  {
    totalErrors, v, prev := 0, v0, map[];
    for i := 0 to nbIter
      invariant Now(v, c, corMask, uncMask) && Paired(c) && totalErrors == Total(v, |v|)
      invariant AllOnTrack(links, v, prev, rounds, i)
    {
      var errors;
      errors, prev, v := MonStep(links, c, corMask, uncMask, rounds, i, prev, v);
      totalErrors := totalErrors + errors;
    }
  }

  /** One iteration, entered in the books. */
  method MonStep(links: seq<AppDev>, ghost c: Crew, corMask: word, uncMask: word, rounds: nat -> nat, i: nat,
                 prev0: map<AppDev, bool>, ghost v0: Book)
    returns (errors: nat, prev: map<AppDev, bool>, ghost v: Book)
    requires c.ports == links && Paired(c) && Now(v0, c, corMask, uncMask)
    requires AllOnTrack(links, v0, prev0, rounds, i)
    modifies c.rec.Keys, c.hw.Keys
    ensures Now(v, c, corMask, uncMask) && Paired(c) && Total(v, |v|) == Total(v0, |v0|) + errors
    ensures AllOnTrack(links, v, prev, rounds, i + 1)
  {
    errors, prev, v := Iterate(links, c, corMask, uncMask, rounds(i), prev0, v0);
    AllStayOnTrack(links, v0, v, prev0, prev, rounds, i);
  }

  lemma NothingDone(links: seq<AppDev>, v: seq<LinkBook>, rounds: nat -> nat)
    requires |links| == |v| && forall k :: 0 <= k < |v| ==> v[k].log == [] && v[k].errs == 0
    ensures AllOnTrack(links, v, map[], rounds, 0) && Total(v, |v|) == 0
  {
    NothingYet(v, |v|);
  }

  lemma TracksFollow(links: seq<AppDev>, v: Book, prev: map<AppDev, bool>, rounds: nat -> nat, n: nat)
    requires AllOnTrack(links, v, prev, rounds, n)
    ensures forall k :: 0 <= k < |v| ==> LinkOk(v[k]) && Follows(v[k].log, rounds, n)
  {
    forall k | 0 <= k < |v| ensures LinkOk(v[k]) && Follows(v[k].log, rounds, n) {
      LinkIsOk(v, |v|, k);
      assert OnTrack(v[k].log, Had(prev, links[k]), rounds, n);
    }
  }

  lemma {:induction false} NothingYet(v: seq<LinkBook>, n: nat)
    requires n <= |v| && forall k :: 0 <= k < |v| ==> v[k].errs == 0
    ensures Total(v, n) == 0
  {
    if n > 0 { NothingYet(v, n - 1); }
  }

  /** The port and its child both report errors, known exceptions aside. */
  predicate Qualifies(d: PciDev, aer: bool)
    reads d`lnkChild, d`ecap, d`vendor, d`device, ChildSet(d)`ecap
  {
    var upQual := (Get(d.ecap, PCI_ECAP_ID_AER) > 0 && (d.vendor != 0x1022 || d.device != 0x1484))
      || (!aer && d.vendor == 0x1022 && d.device == 0x1483);
    d.lnkChild != null && upQual && Get(d.lnkChild.ecap, PCI_ECAP_ID_AER) > 0
  }

  /** Every device has its own registers. */
  ghost predicate OwnHw(devs: seq<PciDev>)
    reads set d | d in devs :: d.hw
  {
    && (forall i, j :: 0 <= i < j < |devs| ==> devs[i].hw != devs[j].hw)
    && (forall d :: d in devs ==> d.hw.Valid())
  }

  /** Two ports never share a link child, and a link child is never a port. */
  lemma PortsApart(w: World, p: PciDev, q: PciDev)
    requires w.BusesKnown() && AllLinked(w) && p in w.devs && q in w.devs
    requires p.lnkChild != null && q.lnkChild != null
    ensures p != q ==> p.lnkChild != q.lnkChild
    ensures p.lnkChild != q && q.lnkChild != p
  {
    assert ChildLinked(w, p) && ChildLinked(w, q);
  }

  // ---- The tree, by places in the device list ----

  /** `kid[i]` is the place of device `i`'s link child, or -1. Every device has its own registers;
      no child has two ports, and no child is a port. */
  ghost predicate Forest(devs: seq<PciDev>, kid: seq<int>) {
    && |kid| == |devs|
    && (forall i, j :: 0 <= i < |devs| && 0 <= j < |devs| && i != j ==>
         devs[i] != devs[j] && devs[i].hw != devs[j].hw)
    && (forall i :: 0 <= i < |devs| ==> -1 <= kid[i] < |devs| && (kid[i] >= 0 ==> kid[kid[i]] == -1))
    && (forall i, j :: 0 <= i < |devs| && 0 <= j < |devs| && kid[i] == kid[j] >= 0 ==> i == j)
  }

  ghost predicate KidIs(devs: seq<PciDev>, d: PciDev, k: int)
    reads d`lnkChild
  {
    if d.lnkChild == null then k == -1 else 0 <= k < |devs| && devs[k] == d.lnkChild
  }

  ghost predicate KidsAre(devs: seq<PciDev>, kid: seq<int>)
    reads (set d | d in devs)`lnkChild
  {
    |kid| == |devs| && forall i :: 0 <= i < |devs| ==> KidIs(devs, devs[i], kid[i])
  }

  /** The world is scanned, linked and named. */
  ghost predicate Ready(w: World)
    reads w`devs, w`bus, (set d | d in w.devs)`secondary, (set d | d in w.devs)`parent
    reads (set d | d in w.devs)`devType, (set d | d in w.devs)`lnkChild, set d | d in w.devs :: d.hw
  {
    w.BusesKnown() && AllLinked(w) && Unique(w.devs) && OwnHw(w.devs)
  }

  lemma GetKids(w: World) returns (kid: seq<int>)
    requires Ready(w)
    ensures KidsAre(w.devs, kid)
  {
    kid := [];
    for i := 0 to |w.devs|
      invariant |kid| == i && forall j :: 0 <= j < i ==> KidIs(w.devs, w.devs[j], kid[j])
    {
      kid := kid + [IndexOf(w.devs, w.devs[i].lnkChild)];
    }
  }

  lemma IsForest(w: World, kid: seq<int>)
    requires Ready(w) && KidsAre(w.devs, kid)
    ensures Forest(w.devs, kid)
  {
    var devs := w.devs;
    forall i, j | 0 <= i < |devs| && 0 <= j < |devs| && i != j
      ensures devs[i] != devs[j] && devs[i].hw != devs[j].hw
    {
      if i < j { assert devs[i] != devs[j]; } else { assert devs[j] != devs[i]; }
    }
    forall i | 0 <= i < |devs| ensures kid[i] >= 0 ==> kid[kid[i]] == -1 {
      assert KidIs(devs, devs[i], kid[i]);
      if kid[i] >= 0 {
        assert KidIs(devs, devs[kid[i]], kid[kid[i]]);
        if devs[kid[i]].lnkChild != null { PortsApart(w, devs[i], devs[kid[i]]); }
      }
    }
    forall i, j | 0 <= i < |devs| && 0 <= j < |devs| && kid[i] == kid[j] >= 0 ensures i == j {
      assert KidIs(devs, devs[i], kid[i]) && KidIs(devs, devs[j], kid[j]);
      if i != j { PortsApart(w, devs[i], devs[j]); }
    }
  }

  // ---- Wrapping ----

  /** The links found among the first `n` devices: link `k` is that of device `at[k]`. */
  ghost predicate Wraps(devs: seq<PciDev>, kid: seq<int>, c: Roster, at: seq<nat>, n: nat) {
    && |kid| == |devs| && n <= |devs| && |at| == |c.ports| == |c.kids|
    && (forall k :: 0 <= k < |at| ==> WrapsOne(devs, kid, c, at[k], k) && at[k] < n)
    && (forall j, k :: 0 <= j < k < |at| ==> at[j] < at[k])
  }

  /** Link `k`'s records wrap device `i` and its link child. */
  ghost predicate WrapsOne(devs: seq<PciDev>, kid: seq<int>, c: Roster, i: nat, k: nat)
    requires |kid| == |devs| && k < |c.ports| == |c.kids|
  {
    i < |devs| && 0 <= kid[i] < |devs| && c.ports[k].dev == devs[i] && c.kids[k].dev == devs[kid[i]]
  }

  /** Only the links' own devices have a seat. */
  ghost predicate NoOthers(c: Roster)
    requires |c.ports| == |c.kids|
  {
    forall h :: h in c.hw ==>
      var s := c.hw[h];
      s.link < |c.ports| && (if s.isPort then c.ports[s.link] else c.kids[s.link]).dev.hw == h
  }

  function AddSeats(c: Roster, p: AppDev, a: AppDev): Roster {
    var n := |c.ports|;
    Roster(c.ports + [p], c.kids + [a], c.rec[p := Seat(n, true)][a := Seat(n, false)],
           c.hw[p.dev.hw := Seat(n, true)][a.dev.hw := Seat(n, false)], c.devs)
  }

  /** A port that comes later, and its child, have no seat yet. */
  lemma SeatsFree(devs: seq<PciDev>, kid: seq<int>, c: Roster, at: seq<nat>, i: nat)
    requires Forest(devs, kid) && Sound(c) && Wraps(devs, kid, c, at, i) && NoOthers(c)
    requires i < |devs| && kid[i] >= 0
    ensures devs[i].hw !in c.hw && devs[kid[i]].hw !in c.hw && devs[i].hw != devs[kid[i]].hw
  {
    assert kid[kid[i]] == -1;
    forall h | h in c.hw ensures h != devs[i].hw && h != devs[kid[i]].hw {
      var k := c.hw[h].link;
      assert WrapsOne(devs, kid, c, at[k], k) && at[k] < i;
      assert kid[kid[at[k]]] == -1;
      var j := if c.hw[h].isPort then at[k] else kid[at[k]];
      assert devs[j].hw == h && j != i && j != kid[i];
    }
  }

  /** One more link. */
  lemma AddsSeats(devs: seq<PciDev>, kid: seq<int>, c: Roster, at: seq<nat>, i: nat, p: AppDev, a: AppDev)
    requires Forest(devs, kid) && Sound(c) && Wraps(devs, kid, c, at, i) && NoOthers(c)
    requires i < |devs| && kid[i] >= 0 && p.dev == devs[i] && a.dev == devs[kid[i]]
    requires p !in c.rec && a !in c.rec && p != a && p.dev in c.devs && a.dev in c.devs
    ensures var c' := AddSeats(c, p, a);
      Sound(c') && Wraps(devs, kid, c', at + [i], i + 1) && NoOthers(c')
  {
    SeatsFree(devs, kid, c, at, i);
    var c', n := AddSeats(c, p, a), |c.ports|;
    forall k | 0 <= k < n + 1
      ensures Seated(c', c'.ports[k], Seat(k, true)) && Seated(c', c'.kids[k], Seat(k, false))
    {
      if k < n { assert Seated(c, c.ports[k], Seat(k, true)) && Seated(c, c.kids[k], Seat(k, false)); }
    }
    forall k | 0 <= k < n + 1 ensures WrapsOne(devs, kid, c', (at + [i])[k], k) && (at + [i])[k] < i + 1 {
      if k < n { assert WrapsOne(devs, kid, c, at[k], k); }
    }
  }

  /** Nothing has been read or counted. */
  ghost predicate AllUntouched(c: Crew)
    reads c.rec.Keys, c.hw.Keys
  {
    forall k :: 0 <= k < |c.ports| ==> PairUntouched(c, k)
  }

  ghost predicate PairUntouched(c: Crew, k: nat)
    requires k < |c.ports|
    reads c.rec.Keys, c.hw.Keys
  {
    assert Seated(c, c.ports[k], Seat(k, true)) && Seated(c, c.kids[k], Seat(k, false));
    Untouched(SnapOf(c.ports[k])) && Untouched(SnapOf(c.kids[k]))
  }

  /** Wraps one link. */
  method AddLink(d: PciDev) returns (parent: AppDev, child: AppDev)
    requires d.lnkChild != null && d.lnkChild != d
    modifies d`app, d.lnkChild`app
    ensures fresh(parent) && fresh(child) && parent != child
    ensures parent.dev == d && child.dev == d.lnkChild
    ensures d.app == parent && d.lnkChild.app == child
    ensures Untouched(SnapOf(parent)) && Untouched(SnapOf(child))
  {
    parent := new AppDev(d);
    d.app := parent;
    child := new AppDev(d.lnkChild);
    d.lnkChild.app := child;
  }

  /** The places, among the first `n`, that are marked. */
  function Picks(marks: seq<bool>, n: nat): seq<nat>
    requires n <= |marks|
  {
    if n == 0 then [] else Picks(marks, n - 1) + if marks[n - 1] then [n - 1] else []
  }

  /** Every marked place is picked, and no other, in order. */
  lemma {:induction false} PicksAre(marks: seq<bool>, n: nat)
    requires n <= |marks|
    ensures forall i :: 0 <= i < n ==> (i in Picks(marks, n) <==> marks[i])
    ensures forall k :: 0 <= k < |Picks(marks, n)| ==> Picks(marks, n)[k] < n
    ensures forall k, m :: 0 <= k < m < |Picks(marks, n)| ==> Picks(marks, n)[k] < Picks(marks, n)[m]
    decreases n
  {
    if n > 0 { PicksAre(marks, n - 1); }
  }

  lemma PicksNext(marks: seq<bool>, i: nat)
    requires i < |marks|
    ensures Picks(marks, i + 1) == if marks[i] then Picks(marks, i) + [i] else Picks(marks, i)
  {
  }

  /** `marks` says which listed devices qualify. */
  ghost predicate Marked(w: World, aer: bool, marks: seq<bool>)
    reads w`devs, (set d | d in w.devs)`lnkChild, (set d | d in w.devs)`ecap, (set d | d in w.devs)`vendor
    reads (set d | d in w.devs)`device, (set d, c | d in w.devs && c in ChildSet(d) :: c)`ecap
  {
    |marks| == |w.devs| && forall i :: 0 <= i < |w.devs| ==> marks[i] == Qualifies(w.devs[i], aer)
  }

  lemma GetMarks(w: World, aer: bool) returns (marks: seq<bool>)
    ensures Marked(w, aer, marks)
  {
    marks := [];
    for i := 0 to |w.devs|
      invariant |marks| == i && forall j :: 0 <= j < i ==> marks[j] == Qualifies(w.devs[j], aer)
    {
      marks := marks + [Qualifies(w.devs[i], aer)];
    }
  }

  /** The marks in plain words: both ends report errors, but not the port 1022:1484; and unless only
      error reporting counts, the port 1022:1483 need not. */
  lemma MarksMean(w: World, aer: bool, marks: seq<bool>)
    requires Marked(w, aer, marks)
    ensures forall i :: 0 <= i < |w.devs| ==> (i in Picks(marks, |marks|) <==>
      && w.devs[i].lnkChild != null && 1 in w.devs[i].lnkChild.ecap && w.devs[i].lnkChild.ecap[1] > 0
      && ((1 in w.devs[i].ecap && w.devs[i].ecap[1] > 0
           && !(w.devs[i].vendor == 0x1022 && w.devs[i].device == 0x1484))
          || (!aer && w.devs[i].vendor == 0x1022 && w.devs[i].device == 0x1483)))
  {
    PicksAre(marks, |marks|);
    forall i | 0 <= i < |w.devs| ensures i in Picks(marks, |marks|) <==> Qualifies(w.devs[i], aer) {
      assert marks[i] == Qualifies(w.devs[i], aer);
    }
  }

  /** Wraps the link of device `i` behind those found before. */
  method ShowOne(ghost devs: seq<PciDev>, ghost kid: seq<int>, ghost i: nat, d: PciDev,
                 ghost c0: Crew, ghost at0: seq<nat>)
    returns (p: AppDev, ghost c: Crew)
    requires Forest(devs, kid) && KidsAre(devs, kid) && Wraps(devs, kid, c0, at0, i) && NoOthers(c0)
    requires i < |devs| && devs[i] == d && d.lnkChild != null && c0.devs == set x | x in devs
    requires Paired(c0) && AllUntouched(c0)
    modifies d`app, d.lnkChild`app
    ensures c.ports == c0.ports + [p] && c.devs == c0.devs
    ensures Wraps(devs, kid, c, at0 + [i], i + 1) && NoOthers(c)
    ensures Paired(c) && AllUntouched(c)
    ensures forall a :: a in c.rec ==> a in c0.rec || fresh(a)
  {
    assert KidIs(devs, d, kid[i]) && kid[kid[i]] == -1;
    ghost var child := d.lnkChild;
    var a;
    p, a := AddLink(d);
    AddsSeats(devs, kid, c0, at0, i, p, a);
    c := AddSeats(c0, p, a);
    forall k | 0 <= k < |c.ports| ensures c.ports[k].dev in c.devs && ChildIs(c.devs, c.ports[k], c.kids[k]) {
      if k < |c0.ports| {
        assert WrapsOne(devs, kid, c0, at0[k], k) && KidIs(devs, devs[at0[k]], kid[at0[k]]);
        assert c0.ports[k].dev in c0.devs && ChildIs(c0.devs, c0.ports[k], c0.kids[k]);
      }
    }
    StillUntouched(c0, p, a);
  }

  lemma StillUntouched(c0: Crew, p: AppDev, a: AppDev)
    requires AllUntouched(c0) && Untouched(SnapOf(p)) && Untouched(SnapOf(a)) && Sound(AddSeats(c0, p, a))
    requires |c0.ports| == |c0.kids|
    ensures AllUntouched(AddSeats(c0, p, a))
  {
    var c: Crew := AddSeats(c0, p, a);
    forall k | 0 <= k < |c.ports| ensures PairUntouched(c, k) {
      if k < |c0.ports| { assert PairUntouched(c0, k); }
    }
  }

  /** The links found so far, and how they came to be: `marks` says which devices qualify. */
  ghost predicate FoundLinks(devs: seq<PciDev>, kid: seq<int>, links: seq<AppDev>, c: Crew, at: seq<nat>,
                             marks: seq<bool>, i: nat)
    reads (set d | d in devs)`lnkChild, c.devs`lnkChild, c.devs`app, c.rec.Keys, c.hw.Keys
  {
    && c.ports == links && c.devs == (set x | x in devs)
    && Wraps(devs, kid, c, at, i) && NoOthers(c) && Paired(c) && AllUntouched(c)
    && i <= |marks| == |devs| && at == Picks(marks, i)
  }

  /** One round of `showLinks`' loop. */
  method ShowNext(w: World, aer: bool, i: nat, links0: seq<AppDev>, ghost kid: seq<int>,
                  ghost c0: Crew, ghost at0: seq<nat>, ghost marks: seq<bool>)
    returns (links: seq<AppDev>, ghost c: Crew, ghost at: seq<nat>)
    requires Forest(w.devs, kid) && KidsAre(w.devs, kid) && FoundLinks(w.devs, kid, links0, c0, at0, marks, i)
    requires i < |w.devs| && Marked(w, aer, marks)
    modifies (set d | d in w.devs)`app
    ensures FoundLinks(w.devs, kid, links, c, at, marks, i + 1) && KidsAre(w.devs, kid) && Marked(w, aer, marks)
    ensures forall a :: a in c.rec ==> a in c0.rec || fresh(a)
  {
    links, c, at := ShowStep(w, aer, i, links0, kid, c0, at0, marks);
    forall k | 0 <= k < |w.devs| ensures marks[k] == Qualifies(w.devs[k], aer) {
      var d := w.devs[k];
      assert d.lnkChild == old(d.lnkChild) && d.ecap == old(d.ecap) && ChildSet(d) == old(ChildSet(d));
    }
  }

  /** Wraps the next device's link if it qualifies. */
  method ShowStep(w: World, aer: bool, i: nat, links0: seq<AppDev>, ghost kid: seq<int>,
                  ghost c0: Crew, ghost at0: seq<nat>, ghost marks: seq<bool>)
    returns (links: seq<AppDev>, ghost c: Crew, ghost at: seq<nat>)
    requires Forest(w.devs, kid) && KidsAre(w.devs, kid) && FoundLinks(w.devs, kid, links0, c0, at0, marks, i)
    requires i < |w.devs| && marks[i] == Qualifies(w.devs[i], aer)
    modifies (set d | d in w.devs)`app
    ensures FoundLinks(w.devs, kid, links, c, at, marks, i + 1) && KidsAre(w.devs, kid)
    ensures forall a :: a in c.rec ==> a in c0.rec || fresh(a)
  {
    links, c, at := links0, c0, at0;
    PicksNext(marks, i);
    if Qualifies(w.devs[i], aer) {
      var p;
      assert KidIs(w.devs, w.devs[i], kid[i]);
      p, c := ShowOne(w.devs, kid, i, w.devs[i], c0, at0);
      links, at := links + [p], at + [i];
    }
  }

  /** Finds and wraps the links of the qualifying devices, in order. */
  method ShowLinks(w: World, aer: bool, ghost kid: seq<int>, ghost marks: seq<bool>)
    returns (links: seq<AppDev>, ghost c: Crew, ghost at: seq<nat>)
    requires Forest(w.devs, kid) && KidsAre(w.devs, kid) && Marked(w, aer, marks)
    modifies (set d | d in w.devs)`app
    ensures FoundLinks(w.devs, kid, links, c, at, marks, |w.devs|) && KidsAre(w.devs, kid)
    ensures |links| == |at| && forall k :: 0 <= k < |at| ==> at[k] < |w.devs| && links[k].dev == w.devs[at[k]]
    ensures forall i :: 0 <= i < |w.devs| ==> (i in at <==> old(
      && w.devs[i].lnkChild != null && 1 in w.devs[i].lnkChild.ecap && w.devs[i].lnkChild.ecap[1] > 0
      && ((1 in w.devs[i].ecap && w.devs[i].ecap[1] > 0
           && !(w.devs[i].vendor == 0x1022 && w.devs[i].device == 0x1484))
          || (!aer && w.devs[i].vendor == 0x1022 && w.devs[i].device == 0x1483))))
    ensures forall a :: a in c.rec ==> fresh(a)
  {
    MarksMean(w, aer, marks);
    links, c, at := WrapLinks(w, aer, kid, marks);
  }

  method WrapLinks(w: World, aer: bool, ghost kid: seq<int>, ghost marks: seq<bool>)
    returns (links: seq<AppDev>, ghost c: Crew, ghost at: seq<nat>)
    requires Forest(w.devs, kid) && KidsAre(w.devs, kid) && Marked(w, aer, marks)
    modifies (set d | d in w.devs)`app
    ensures FoundLinks(w.devs, kid, links, c, at, marks, |w.devs|) && KidsAre(w.devs, kid)
    ensures forall a :: a in c.rec ==> fresh(a)
  {
    links, at := [], [];
    c := Roster([], [], map[], map[], set d | d in w.devs);
    for i := 0 to |w.devs|
      invariant KidsAre(w.devs, kid) && FoundLinks(w.devs, kid, links, c, at, marks, i)
      invariant Marked(w, aer, marks) && forall a :: a in c.rec ==> fresh(a)
    {
      links, c, at := ShowNext(w, aer, i, links, kid, c, at, marks);
    }
  }

  ghost predicate IsNew(l: LinkBook, c: Crew, k: nat, corMask: word, uncMask: word)
    requires k < |c.ports|
    reads c.rec.Keys, c.hw.Keys
  {
    LinkNow(l, c, k, corMask, uncMask) && l.log == [] && l.errs == 0
  }

  ghost predicate AllNew(s: seq<LinkBook>, c: Crew, n: nat, corMask: word, uncMask: word)
    reads c.rec.Keys, c.hw.Keys
  {
    n <= |s| && n <= |c.ports| && forall k :: 0 <= k < n ==> IsNew(s[k], c, k, corMask, uncMask)
  }

  /** Nothing in a link's book yet. */
  lemma NewLink(c: Crew, k: nat, corMask: word, uncMask: word) returns (l: LinkBook)
    requires k < |c.ports| && PairUntouched(c, k) && forall h :: h in c.hw ==> h.Valid()
    ensures IsNew(l, c, k, corMask, uncMask) && LinkOk(l)
  {
    assert Seated(c, c.ports[k], Seat(k, true)) && Seated(c, c.kids[k], Seat(k, false));
    var p, a := SnapOf(c.ports[k]), SnapOf(c.kids[k]);
    UntouchedKept(p, corMask, uncMask);
    UntouchedKept(a, corMask, uncMask);
    l := LinkBook(corMask, uncMask, p, a, [], 0);
  }

  /** Nothing in the books yet. */
  lemma NewBook(c: Crew, corMask: word, uncMask: word) returns (v: Book)
    requires AllUntouched(c) && forall h :: h in c.hw ==> h.Valid()
    ensures Now(v, c, corMask, uncMask) && forall k :: 0 <= k < |v| ==> v[k].log == [] && v[k].errs == 0
  {
    var s := NewLinks(c, |c.ports|, corMask, uncMask);
    assert forall k :: 0 <= k < |s| ==> IsNew(s[k], c, k, corMask, uncMask);
    v := s;
  }

  lemma NewLinks(c: Crew, n: nat, corMask: word, uncMask: word) returns (s: seq<LinkBook>)
    requires n <= |c.ports| && AllUntouched(c) && forall h :: h in c.hw ==> h.Valid()
    ensures |s| == n && LinksOk(s, n) && AllNew(s, c, n, corMask, uncMask)
    decreases n
  {
    s := [];
    if n > 0 {
      s := NewLinks(c, n - 1, corMask, uncMask);
      var l := NewLink(c, n - 1, corMask, uncMask);
      OkGrows(s, n - 1, l);
      NewOn(s, l, c, n - 1, corMask, uncMask);
      s := s + [l];
    }
  }

  lemma NewOn(s: seq<LinkBook>, l: LinkBook, c: Crew, n: nat, corMask: word, uncMask: word)
    requires |s| == n < |c.ports| && AllNew(s, c, n, corMask, uncMask) && IsNew(l, c, n, corMask, uncMask)
    ensures AllNew(s + [l], c, n + 1, corMask, uncMask)
  {
    forall k | 0 <= k < n + 1 ensures IsNew((s + [l])[k], c, k, corMask, uncMask) {
      if k < n { assert IsNew(s[k], c, k, corMask, uncMask); }
    }
  }

  lemma {:induction false} OkGrows(v: seq<LinkBook>, n: nat, l: LinkBook)
    requires n <= |v| && LinksOk(v, n) && LinkOk(l)
    ensures LinksOk(v + [l], n) && (n == |v| ==> LinksOk(v + [l], n + 1))
    decreases n
  {
    if n > 0 { OkGrows(v, n - 1, l); }
  }

  /** The registers of all devices. */
  ghost function HwStates(devs: seq<PciDev>): (s: seq<HwState>)
    reads set d | d in devs :: d.hw
    ensures |s| == |devs| && forall i :: 0 <= i < |devs| ==> s[i] == StateOf(devs[i].hw)
  {
    seq(|devs|, i requires 0 <= i < |devs| reads set d | d in devs :: d.hw => StateOf(devs[i].hw))
  }

  /** The records' starts are these states of their devices. */
  ghost predicate Starts(c: Roster, devs: seq<PciDev>, states: seq<HwState>)
    requires |devs| == |states| && |c.ports| == |c.kids|
  {
    forall k, i :: 0 <= k < |c.ports| && 0 <= i < |devs| ==>
      && (c.ports[k].dev == devs[i] ==> c.ports[k].start == states[i])
      && (c.kids[k].dev == devs[i] ==> c.kids[k].start == states[i])
  }

  lemma UntouchedStart(w: World, c: Crew)
    requires AllUntouched(c)
    ensures Starts(c, w.devs, HwStates(w.devs))
  {
    forall k, i | 0 <= k < |c.ports| && 0 <= i < |w.devs|
      ensures c.ports[k].dev == w.devs[i] ==> c.ports[k].start == HwStates(w.devs)[i]
      ensures c.kids[k].dev == w.devs[i] ==> c.kids[k].start == HwStates(w.devs)[i]
    {
      assert PairUntouched(c, k);
    }
  }

  /** Every device with a seat is listed. */
  lemma SeatsListed(devs: seq<PciDev>, kid: seq<int>, c: Crew, at: seq<nat>)
    requires Wraps(devs, kid, c, at, |devs|) && NoOthers(c)
    ensures forall h :: h in c.hw ==> exists d :: d in devs && d.hw == h
  {
    forall h | h in c.hw ensures exists d :: d in devs && d.hw == h {
      var s := c.hw[h];
      assert WrapsOne(devs, kid, c, at[s.link], s.link);
      var d := if s.isPort then devs[at[s.link]] else devs[kid[at[s.link]]];
      assert d in devs && d.hw == h;
    }
  }

  /** Finds the links, and opens the books. */
  method OpenBooks(w: World, corMask: word, uncMask: word)
    returns (links: seq<AppDev>, ghost c: Crew, ghost at: seq<nat>, ghost kid: seq<int>, ghost v: Book)
    requires Ready(w)
    modifies (set d | d in w.devs)`app
    ensures forall i :: 0 <= i < |w.devs| ==> (i in at <==> old(
      && w.devs[i].lnkChild != null && 1 in w.devs[i].lnkChild.ecap && w.devs[i].lnkChild.ecap[1] > 0
      && 1 in w.devs[i].ecap && w.devs[i].ecap[1] > 0
      && !(w.devs[i].vendor == 0x1022 && w.devs[i].device == 0x1484)))
    ensures c.ports == links && KidsAre(w.devs, kid) && Wraps(w.devs, kid, c, at, |w.devs|) && Paired(c)
    ensures Starts(c, w.devs, old(HwStates(w.devs))) && Now(v, c, corMask, uncMask)
    ensures forall k :: 0 <= k < |v| ==> v[k].log == [] && v[k].errs == 0
    ensures forall h :: h in c.hw ==> exists d :: d in w.devs && d.hw == h
    ensures forall a :: a in c.rec ==> fresh(a)
  {
    kid := GetKids(w);
    IsForest(w, kid);
    ghost var marks := GetMarks(w, true);
    assert forall d :: d in w.devs ==> d.hw.Valid();
    links, c, at := ShowLinks(w, true, kid, marks);
    UntouchedStart(w, c);
    SeatsListed(w.devs, kid, c, at);
    v := NewBook(c, corMask, uncMask);
  }

  /** The `-mon` command: finds the links and monitors them. `at[k]` is the place of link `k`'s port.
      In the end the books `v`, which hold the registers and the counters as they now are, are in
      balance since the registers' state at the beginning; the total is the sum of all counters; and
      every link was polled as often as the rule says. */
  method MonLinks(w: World, corMask: word, uncMask: word, nbIter: nat, rounds: nat -> nat)
    returns (totalErrors: nat, links: seq<AppDev>, ghost c: Crew, ghost at: seq<nat>, ghost kid: seq<int>,
             ghost v: Book)
    requires Ready(w)
    modifies (set d | d in w.devs)`app, set d | d in w.devs :: d.hw
    // The links are those of exactly the ports that report errors, as their children do, except the
    // port 1022:1484; in the order of the list.
    ensures forall i :: 0 <= i < |w.devs| ==> (i in at <==> old(
      && w.devs[i].lnkChild != null && 1 in w.devs[i].lnkChild.ecap && w.devs[i].lnkChild.ecap[1] > 0
      && 1 in w.devs[i].ecap && w.devs[i].ecap[1] > 0
      && !(w.devs[i].vendor == 0x1022 && w.devs[i].device == 0x1484)))
    ensures |links| == |at| && forall k :: 0 <= k < |at| ==> at[k] < |w.devs| && links[k].dev == w.devs[at[k]]
    ensures c.ports == links && KidsAre(w.devs, kid) && Wraps(w.devs, kid, c, at, |w.devs|)
    ensures Starts(c, w.devs, old(HwStates(w.devs))) && Now(v, c, corMask, uncMask)
    ensures forall k :: 0 <= k < |links| ==> LinkOk(v[k]) && Follows(v[k].log, rounds, nbIter)
    ensures totalErrors == Total(v, |v|)
  {
    links, c, at, kid, v := OpenBooks(w, corMask, uncMask);
    totalErrors, v := MonLoop(links, c, corMask, uncMask, nbIter, rounds, v);
  }
}
