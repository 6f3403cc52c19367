/** Device names: how they are formatted, how they sort, and why no two are equal
    (pci/defs.go, pci/sys_linux.go). */
module PciNames {
  import opened Bits

  // ---- Formatting ----

  const DIGITS := "0123456789abcdef"

  function Digit(d: nat): char
    requires d < 16
  {
    DIGITS[d]
  }

  predicate IsDecimal(c: char) { '0' <= c <= '9' }

  /** `%d`. */
  function Dec(n: nat): (s: string)
    ensures |s| > 0 && forall i :: 0 <= i < |s| ==> IsDecimal(s[i])
  {
    if n < 10 then [Digit(n)] else Dec(n / 10) + [Digit(n % 10)]
  }

  /** `%02x` of a byte. */
  function Hex2(b: byte): string { [Digit(b / 16), Digit(b % 16)] }

  lemma {:induction false} DecInjective(n: nat, m: nat)
    requires Dec(n) == Dec(m)
    ensures n == m
    decreases n
  {
    var s := Dec(n);
    assert s[|s| - 1] == Digit(n % 10) == Digit(m % 10);
    if n >= 10 && m >= 10 {
      assert Dec(n / 10) == s[..|s| - 1] == Dec(m / 10);
      DecInjective(n / 10, m / 10);
    }
  }

  lemma StemNotShorter(s: string, n: nat, t: string, m: nat)
    requires s + Dec(n) == t + Dec(m)
    requires t != [] && !IsDecimal(t[|t| - 1])
    ensures |s| >= |t|
  {
    var a := s + Dec(n);
    forall i | |s| <= i < |a| ensures IsDecimal(a[i]) {
      assert a[i] == Dec(n)[i - |s|];
    }
    assert a[|t| - 1] == (t + Dec(m))[|t| - 1] == t[|t| - 1];
  }

  /** A number behind a non-digit can be split off again. */
  lemma NumberSplits(s: string, n: nat, t: string, m: nat)
    requires s + Dec(n) == t + Dec(m)
    requires s != [] && t != [] && !IsDecimal(s[|s| - 1]) && !IsDecimal(t[|t| - 1])
    ensures s == t && n == m
  {
    StemNotShorter(s, n, t, m);
    StemNotShorter(t, m, s, n);
    var a, b := s + Dec(n), t + Dec(m);
    assert s == a[..|s|] && t == b[..|t|] && Dec(n) == a[|s|..] && Dec(m) == b[|t|..];
    DecInjective(n, m);
  }

  lemma DigitOrder(i: nat, j: nat)
    requires i < 16 && j < 16
    ensures Digit(i) < Digit(j) <==> i < j
    ensures Digit(i) == Digit(j) <==> i == j
  {
  }

  lemma HexInjective(a: byte, b: byte)
    requires Hex2(a) == Hex2(b)
    ensures a == b
  {
    DigitOrder(a / 16, b / 16);
    DigitOrder(a % 16, b % 16);
    assert Hex2(a)[0] == Hex2(b)[0] && Hex2(a)[1] == Hex2(b)[1];
  }

  // ---- Sort order ----

  /** Go's `<` on strings. */
  predicate LexLess(a: string, b: string) {
    b != [] && (a == [] || a[0] < b[0] || (a[0] == b[0] && LexLess(a[1..], b[1..])))
  }

  lemma LexStep(c: char, a: string, d: char, b: string)
    ensures LexLess([c] + a, [d] + b) <==> c < d || (c == d && LexLess(a, b))
  {
    assert ([c] + a)[1..] == a && ([d] + b)[1..] == b;
  }

  /** The scan's name of a device (`%04x:%02x:%02x.%x`), behind the domain. */
  function SortTail(bus: byte, devFn: byte): string {
    [Digit(bus / 16), Digit(bus % 16), ':', Digit(devFn / 8 / 16), Digit(devFn / 8 % 16), '.', Digit(devFn % 8)]
  }

  function SortName(domain: string, bus: byte, devFn: byte): string { domain + ":" + SortTail(bus, devFn) }

  lemma {:induction false} LexPrefix(p: string, a: string, b: string)
    ensures LexLess(p + a, p + b) <==> LexLess(a, b)
    decreases |p|
  {
    if p == [] {
      assert p + a == a && p + b == b;
    } else {
      LexPrefix(p[1..], a, b);
      LexStep(p[0], p[1..] + a, p[0], p[1..] + b);
      assert p + a == [p[0]] + (p[1..] + a) && p + b == [p[0]] + (p[1..] + b);
    }
  }

  /** Within a domain the fixed-width names sort like the numbers. */
  lemma SortIsNumeric(domain: string, b1: byte, f1: byte, b2: byte, f2: byte)
    ensures LexLess(SortName(domain, b1, f1), SortName(domain, b2, f2)) <==>
      b1 < b2 || (b1 == b2 && f1 < f2)
  {
    LexPrefix(domain + ":", SortTail(b1, f1), SortTail(b2, f2));
    var s, t := SortTail(b1, f1), SortTail(b2, f2);
    TailStep(s, t, 0); TailStep(s, t, 1); TailStep(s, t, 2); TailStep(s, t, 3);
    TailStep(s, t, 4); TailStep(s, t, 5); TailStep(s, t, 6);
    DigitOrder(b1 / 16, b2 / 16);
    DigitOrder(b1 % 16, b2 % 16);
    DigitOrder(f1 / 8 / 16, f2 / 8 / 16);
    DigitOrder(f1 / 8 % 16, f2 / 8 % 16);
    DigitOrder(f1 % 8, f2 % 8);
    ByNibbles(b1, b2);
    ByNibbles(f1 / 8, f2 / 8);
  }

  lemma TailStep(s: string, t: string, k: nat)
    requires |s| == |t| == 7 && k < 7
    ensures LexLess(s[k..], t[k..]) <==> s[k] < t[k] || (s[k] == t[k] && LexLess(s[k + 1..], t[k + 1..]))
  {
    LexStep(s[k], s[k + 1..], t[k], t[k + 1..]);
    assert s[k..] == [s[k]] + s[k + 1..] && t[k..] == [t[k]] + t[k + 1..];
  }

  lemma ByNibbles(a: nat, b: nat)
    ensures a < b <==> a / 16 < b / 16 || (a / 16 == b / 16 && a % 16 < b % 16)
  {
  }

  // ---- Nicknames ----

  const BASES: set<string> := {"ROOT", "ISW", "PLX", "RIMFIRE", "sandisk", "MLX", "AST", "IETH", "CHL",
                               "INTEL-SATA", "INTEL-SAS", "LSI-SAS"}

  /** What a nickname is made of: a kind of device and a running number; the bus of a function 0;
      bus, device and function; the function-0 sibling and a function number; or the switch
      and a port number. */
  datatype Key =
    | Named(base: string, cnt: nat)
    | BusKey(bus: byte)
    | FnKey(fnBus: byte, devFn: byte)
    | SubKey(sibling: Key, fn: byte)
    | PortKey(switch: Key, port: nat)

  predicate Proper(k: Key) {
    match k
    case Named(base, _) => base in BASES
    case SubKey(s, _) => (s.Named? || s.BusKey?) && Proper(s)
    case PortKey(s, _) => Proper(s)
    case _ => true
  }

  /** The text before the final number. */
  function Stem(k: Key): string
    requires !k.BusKey?
    decreases k, 0
  {
    match k
    case Named(base, _) => base
    case FnKey(bus, devFn) => Hex2(bus) + ":" + Hex2(devFn / 8) + "."
    case SubKey(s, _) => Render(s) + "."
    case PortKey(s, _) => Render(s) + "p"
  }

  function Number(k: Key): nat
    requires !k.BusKey?
  {
    match k
    case Named(_, cnt) => cnt
    case FnKey(_, devFn) => devFn % 8
    case SubKey(_, fn) => fn
    case PortKey(_, n) => n
  }

  /** The nickname. */
  function Render(k: Key): string
    decreases k, 1
  {
    if k.BusKey? then "bus-" + Hex2(k.bus) + "h" else Stem(k) + Dec(Number(k))
  }

  lemma BaseEnds(base: string)
    requires base in BASES
    ensures |base| >= 3 && base[2] != ':' && !IsDecimal(base[|base| - 1]) && base[|base| - 1] !in ['.', 'p']
    ensures '/' !in base
  {
  }

  lemma StemEnds(k: Key)
    requires Proper(k) && !k.BusKey?
    ensures var s := Stem(k);
      && |s| > 0 && !IsDecimal(s[|s| - 1])
      && (s[|s| - 1] == '.' <==> k.FnKey? || k.SubKey?) && (s[|s| - 1] == 'p' <==> k.PortKey?)
  {
    if k.Named? { BaseEnds(k.base); }
  }

  /** Only the function-0 name of a bus ends without a number. */
  lemma RenderEnds(k: Key)
    ensures var s := Render(k); |s| > 0 && (IsDecimal(s[|s| - 1]) <==> !k.BusKey?)
  {
  }

  /** The colon of a bus:device.function name, where no other name has one. */
  lemma StemThird(k: Key)
    requires Proper(k) && (k.FnKey? || k.SubKey?)
    ensures |Stem(k)| > 2 && (Stem(k)[2] == ':' <==> k.FnKey?)
  {
    if k.SubKey? {
      var s := k.sibling;
      assert Stem(k) == Render(s) + ".";
      if s.Named? {
        BaseEnds(s.base);
        assert Render(s) == s.base + Dec(s.cnt);
        assert Stem(k)[2] == Render(s)[2] == s.base[2];
      } else {
        assert Render(s) == "bus-" + Hex2(s.bus) + "h";
        assert Stem(k)[2] == Render(s)[2] == 's';
      }
    }
  }

  /** No two different keys make the same nickname. */
  lemma {:induction false} RenderInjective(a: Key, b: Key)
    requires Proper(a) && Proper(b) && Render(a) == Render(b)
    ensures a == b
    decreases a
  {
    RenderEnds(a);
    RenderEnds(b);
    if a.BusKey? {
      var s := Render(a);
      assert s[4..6] == Hex2(a.bus) && s[4..6] == Hex2(b.bus);
      HexInjective(a.bus, b.bus);
    } else {
      StemEnds(a);
      StemEnds(b);
      NumberSplits(Stem(a), Number(a), Stem(b), Number(b));
      StemsDiffer(a, b);
      StemInjective(a, b);
    }
  }

  /** Equal stems belong to the same kind of key. */
  lemma StemsDiffer(a: Key, b: Key)
    requires Proper(a) && Proper(b) && !a.BusKey? && !b.BusKey? && Stem(a) == Stem(b)
    ensures (a.Named? <==> b.Named?) && (a.FnKey? <==> b.FnKey?)
    ensures (a.SubKey? <==> b.SubKey?) && (a.PortKey? <==> b.PortKey?)
  {
    StemEnds(a);
    StemEnds(b);
    if a.FnKey? || a.SubKey? {
      StemThird(a);
      StemThird(b);
    }
  }

  lemma {:induction false} StemInjective(a: Key, b: Key)
    requires Proper(a) && Proper(b) && !a.BusKey? && !b.BusKey?
    requires Stem(a) == Stem(b) && Number(a) == Number(b)
    requires (a.Named? <==> b.Named?) && (a.FnKey? <==> b.FnKey?)
    requires (a.SubKey? <==> b.SubKey?) && (a.PortKey? <==> b.PortKey?)
    ensures a == b
    decreases a, 0
  {
    var st := Stem(a);
    match a
    case Named(_, _) =>
    case PortKey(x, _) =>
      assert st[..|st| - 1] == Render(x) && st[..|st| - 1] == Render(b.switch);
      RenderInjective(x, b.switch);
    case SubKey(x, _) =>
      assert st[..|st| - 1] == Render(x) && st[..|st| - 1] == Render(b.sibling);
      RenderInjective(x, b.sibling);
    case FnKey(_, _) =>
      assert st[..2] == Hex2(a.fnBus) && st[..2] == Hex2(b.fnBus);
      assert st[3..5] == Hex2(a.devFn / 8) && st[3..5] == Hex2(b.devFn / 8);
      HexInjective(a.fnBus, b.fnBus);
      HexInjective(a.devFn / 8, b.devFn / 8);
  }

  lemma HexPlain(b: byte)
    ensures '/' !in Hex2(b)
  {
  }

  lemma DecPlain(n: nat)
    ensures '/' !in Dec(n)
  {
  }

  /** Nicknames hold no path separator. */
  lemma {:induction false} NoSlash(k: Key)
    requires Proper(k)
    ensures '/' !in Render(k) && |Render(k)| > 0
  {
    match k
    case Named(base, cnt) => BaseEnds(base); DecPlain(cnt);
    case SubKey(s, fn) => NoSlash(s); DecPlain(fn);
    case PortKey(s, n) => NoSlash(s); DecPlain(n);
    case BusKey(bus) => HexPlain(bus);
    case FnKey(bus, devFn) => HexPlain(bus); HexPlain(devFn / 8); DecPlain(devFn % 8);
  }

  // ---- Naming a whole tree ----

  /** What naming looks at, for one device: where it is, the kind it is called after (none: the
      empty string), whether it is a switch's downstream port, and the places in the device list
      of its parent and of its parent's linked child (-1: none). */
  datatype Info = Info(bus: byte, devFn: byte, base: string, down: bool, parent: int, sibling: int)

  /** Naming under way: keys and paths given so far, the running numbers of the kinds, and how
      many downstream ports each device has named. */
  datatype Naming = Naming(keys: seq<Key>, paths: seq<string>, counts: map<string, nat>, ports: seq<nat>)

  function Count(counts: map<string, nat>, base: string): nat { if base in counts then counts[base] else 0 }

  /** A tree in the order naming meets it: parents before children, and function 0 before the
      other functions of its bus. */
  ghost predicate Ordered(topo: seq<Info>) { forall i :: 0 <= i < |topo| ==> InfoOk(topo, i) }

  /** Two devices at one place, neither of a kind that gets a number nor a downstream port. */
  predicate Clash(a: Info, b: Info) {
    && a.bus == b.bus && a.devFn == b.devFn
    && a.base == "" && b.base == "" && !a.down && !b.down
  }

  ghost predicate NoClash(topo: seq<Info>) { forall i, j :: 0 <= i < j < |topo| ==> !Clash(topo[i], topo[j]) }

  ghost predicate InfoOk(topo: seq<Info>, i: nat)
    requires i < |topo|
  {
    var d := topo[i];
    && -1 <= d.parent < i && -1 <= d.sibling < |topo|
    && (d.down ==> d.parent >= 0)
    && (d.base != "" ==> d.base in BASES)
    && (d.sibling >= 0 ==>
         var s := topo[d.sibling];
         s.bus == d.bus && s.devFn == 0 && !s.down && (d.devFn != 0 ==> d.sibling < i))
  }

  /** The next device's key. */
  function NextKey(topo: seq<Info>, st: Naming): Key
    requires |st.keys| == |st.paths| < |topo| == |st.ports| && InfoAt(topo, |st.keys|)
  {
    var d := topo[|st.keys|];
    if d.down then PortKey(st.keys[d.parent], st.ports[d.parent])
    else if d.base == "" then
      if d.devFn == 0 then BusKey(d.bus)
      else if d.sibling >= 0 then SubKey(st.keys[d.sibling], d.devFn)
      else FnKey(d.bus, d.devFn)
    else Named(d.base, Count(st.counts, d.base))
  }

  /** The places a device refers to have been named. */
  predicate InfoAt(topo: seq<Info>, i: nat)
    requires i < |topo|
  {
    var d := topo[i];
    -1 <= d.parent < i && (d.down ==> d.parent >= 0)
    && (d.sibling >= 0 && d.devFn != 0 && !d.down ==> d.sibling < i)
  }

  /** The next device's path: a port's number is appended to the switch's path, any other
      nickname is set off by a slash. */
  function NextPath(topo: seq<Info>, st: Naming): string
    requires |st.keys| == |st.paths| < |topo| == |st.ports| && InfoAt(topo, |st.keys|)
  {
    var d := topo[|st.keys|];
    if d.down then st.paths[d.parent] + "p" + Dec(st.ports[d.parent])
    else if d.parent >= 0 then st.paths[d.parent] + "/" + Render(NextKey(topo, st))
    else Render(NextKey(topo, st))
  }

  function NameNext(topo: seq<Info>, st: Naming): Naming
    requires |st.keys| == |st.paths| < |topo| == |st.ports| && InfoAt(topo, |st.keys|)
  {
    var d := topo[|st.keys|];
    Naming(st.keys + [NextKey(topo, st)], st.paths + [NextPath(topo, st)],
      if !d.down && d.base != "" then st.counts[d.base := Count(st.counts, d.base) + 1] else st.counts,
      if d.down then st.ports[d.parent := st.ports[d.parent] + 1] else st.ports)
  }

  /** What naming keeps: every key is proper and says where it comes from, and no two are equal. */
  ghost predicate NamedSoFar(topo: seq<Info>, st: Naming) {
    && |st.keys| == |st.paths| <= |topo| == |st.ports|
    && (forall i :: 0 <= i < |st.keys| ==> KeyOk(topo, st, i))
    && (forall i, j :: 0 <= i < j < |st.keys| ==> st.keys[i] != st.keys[j])
  }

  ghost predicate KeyOk(topo: seq<Info>, st: Naming, i: nat)
    requires i < |st.keys| <= |topo| == |st.ports|
  {
    var d := topo[i];
    Proper(st.keys[i]) &&
    match st.keys[i]
    case Named(base, cnt) => !d.down && cnt < Count(st.counts, base)
    case BusKey(bus) => !d.down && d.base == "" && d.bus == bus && d.devFn == 0
    case FnKey(bus, fn) => !d.down && d.base == "" && d.bus == bus && d.devFn == fn != 0
    case SubKey(s, fn) => !d.down && d.base == "" && d.devFn == fn != 0
      && exists k :: 0 <= k < |st.keys| && st.keys[k] == s && topo[k].bus == d.bus
    case PortKey(s, n) => d.down && 0 <= d.parent < |st.keys| && st.keys[d.parent] == s && n < st.ports[d.parent]
  }

  /** The next key differs from every key given before. */
  lemma NextIsNew(topo: seq<Info>, st: Naming, i: nat)
    requires Ordered(topo) && NoClash(topo) && NamedSoFar(topo, st) && i < |st.keys| < |topo|
    requires InfoAt(topo, |st.keys|)
    ensures st.keys[i] != NextKey(topo, st)
  {
    var n := |st.keys|;
    assert KeyOk(topo, st, i) && InfoOk(topo, n);
    assert !Clash(topo[i], topo[n]);
    var k := NextKey(topo, st);
    if k.SubKey? && st.keys[i].SubKey? && st.keys[i].sibling == k.sibling {
      var s := topo[n].sibling;
      var m :| 0 <= m < |st.keys| && st.keys[m] == k.sibling && topo[m].bus == topo[i].bus;
      assert m == s;
    }
  }

  lemma NextIsProper(topo: seq<Info>, st: Naming)
    requires Ordered(topo) && NoClash(topo) && NamedSoFar(topo, st) && |st.keys| < |topo|
    requires InfoAt(topo, |st.keys|)
    ensures Proper(NextKey(topo, st))
  {
    var n := |st.keys|;
    assert InfoOk(topo, n);
    var k := NextKey(topo, st);
    if k.PortKey? {
      assert KeyOk(topo, st, topo[n].parent);
    } else if k.SubKey? {
      var s := topo[n].sibling;
      assert KeyOk(topo, st, s);
      assert topo[s].devFn == 0;
    }
  }

  lemma NextKeyOk(topo: seq<Info>, st: Naming)
    requires Ordered(topo) && NoClash(topo) && NamedSoFar(topo, st) && |st.keys| < |topo|
    requires InfoAt(topo, |st.keys|)
    ensures KeyOk(topo, NameNext(topo, st), |st.keys|)
  {
    var n := |st.keys|;
    NextIsProper(topo, st);
    assert InfoOk(topo, n);
    var st' := NameNext(topo, st);
    var k := NextKey(topo, st);
    assert st'.keys[n] == k;
    if k.SubKey? {
      assert st'.keys[topo[n].sibling] == k.sibling;
    }
  }

  lemma OldKeyOk(topo: seq<Info>, st: Naming, i: nat)
    requires Ordered(topo) && NoClash(topo) && NamedSoFar(topo, st) && i < |st.keys| < |topo|
    requires InfoAt(topo, |st.keys|)
    ensures KeyOk(topo, NameNext(topo, st), i)
  {
    assert KeyOk(topo, st, i);
    var st' := NameNext(topo, st);
    assert st'.keys[i] == st.keys[i];
    if st.keys[i].SubKey? {
      var m :| 0 <= m < |st.keys| && st.keys[m] == st.keys[i].sibling && topo[m].bus == topo[i].bus;
      assert st'.keys[m] == st.keys[m];
    }
  }

  /** Every step keeps the keys proper and distinct. */
  lemma NameNextKeeps(topo: seq<Info>, st: Naming)
    requires Ordered(topo) && NoClash(topo) && NamedSoFar(topo, st) && |st.keys| < |topo|
    ensures InfoAt(topo, |st.keys|) && NamedSoFar(topo, NameNext(topo, st))
  {
    var n := |st.keys|;
    assert InfoOk(topo, n);
    var st' := NameNext(topo, st);
    forall i | 0 <= i < |st'.keys| ensures KeyOk(topo, st', i) {
      if i < n { OldKeyOk(topo, st, i); } else { NextKeyOk(topo, st); }
    }
    forall i, j | 0 <= i < j < |st'.keys| ensures st'.keys[i] != st'.keys[j] {
      if j == n { NextIsNew(topo, st, i); }
    }
  }

  /** Naming the first `n` devices. */
  function NameAll(topo: seq<Info>, n: nat): (st: Naming)
    requires n <= |topo| && (forall i :: 0 <= i < |topo| ==> InfoAt(topo, i))
    ensures |st.keys| == |st.paths| == n && |st.ports| == |topo|
  {
    if n == 0 then Naming([], [], map[], seq(|topo|, _ => 0))
    else NameNext(topo, NameAll(topo, n - 1))
  }

  lemma OrderedInfo(topo: seq<Info>)
    requires Ordered(topo)
    ensures forall i :: 0 <= i < |topo| ==> InfoAt(topo, i)
  {
    forall i | 0 <= i < |topo| ensures InfoAt(topo, i) {
      assert InfoOk(topo, i);
    }
  }

  lemma {:induction false} NameAllKeeps(topo: seq<Info>, n: nat)
    requires Ordered(topo) && NoClash(topo) && n <= |topo| && (forall i :: 0 <= i < |topo| ==> InfoAt(topo, i))
    ensures NamedSoFar(topo, NameAll(topo, n))
    decreases n
  {
    if n > 0 {
      NameAllKeeps(topo, n - 1);
      NameNextKeeps(topo, NameAll(topo, n - 1));
    }
  }

  /** No two devices get the same nickname. */
  lemma NicknamesDistinct(topo: seq<Info>, i: nat, j: nat)
    requires Ordered(topo) && NoClash(topo) && (forall k :: 0 <= k < |topo| ==> InfoAt(topo, k)) && i < j < |topo|
    ensures Render(NameAll(topo, |topo|).keys[i]) != Render(NameAll(topo, |topo|).keys[j])
  {
    NameAllKeeps(topo, |topo|);
    var st := NameAll(topo, |topo|);
    assert KeyOk(topo, st, i) && KeyOk(topo, st, j);
    if Render(st.keys[i]) == Render(st.keys[j]) { RenderInjective(st.keys[i], st.keys[j]); }
  }

  // ---- Paths ----

  /** A path ends with the device's nickname, set off by a slash if anything is before it. */
  ghost predicate EndsWith(path: string, nick: string) {
    path == nick || exists a: string :: path == a + "/" + nick
  }

  /** The last component of a path is determined by it. */
  lemma LastComponent(path: string, n1: string, n2: string)
    requires EndsWith(path, n1) && EndsWith(path, n2) && '/' !in n1 && '/' !in n2
    ensures n1 == n2
  {
    NotShorter(path, n1, n2);
    NotShorter(path, n2, n1);
    assert path[|path| - |n1|..] == n1 && path[|path| - |n2|..] == n2;
  }

  lemma NotShorter(path: string, n1: string, n2: string)
    requires EndsWith(path, n1) && EndsWith(path, n2) && '/' !in n2
    ensures |n1| <= |path| && |n2| <= |path| && |n1| >= |n2|
    ensures path[|path| - |n1|..] == n1 && path[|path| - |n2|..] == n2
  {
    if path != n1 {
      var a: string :| path == a + "/" + n1;
      assert path[|path| - |n1| - 1] == '/';
      if path != n2 {
        var b: string :| path == b + "/" + n2;
      }
      assert path[|path| - |n2|..] == n2;
      forall k | |path| - |n2| <= k < |path| ensures path[k] != '/' {
        assert path[k] == n2[k - (|path| - |n2|)] && n2[k - (|path| - |n2|)] in n2;
      }
    } else if path != n2 {
      var b: string :| path == b + "/" + n2;
    }
  }

  ghost predicate PathsEnd(st: Naming) {
    |st.keys| == |st.paths| && forall i :: 0 <= i < |st.keys| ==> EndsWith(st.paths[i], Render(st.keys[i]))
  }

  lemma EndsOn(path: string, nick: string, num: string)
    requires EndsWith(path, nick)
    ensures EndsWith(path + num, nick + num)
  {
    if path != nick {
      var a: string :| path == a + "/" + nick;
      assert path + num == a + "/" + (nick + num);
    }
  }

  lemma NextPathEnds(topo: seq<Info>, st: Naming)
    requires |st.keys| < |topo| == |st.ports| && InfoAt(topo, |st.keys|) && PathsEnd(st)
    ensures EndsWith(NextPath(topo, st), Render(NextKey(topo, st)))
  {
    NextSpelled(topo, st);
    var d := topo[|st.keys|];
    if d.down {
      var num := "p" + Dec(st.ports[d.parent]);
      EndsOn(st.paths[d.parent], Render(st.keys[d.parent]), num);
      assert Render(NextKey(topo, st)) == Render(st.keys[d.parent]) + num;
      assert NextPath(topo, st) == st.paths[d.parent] + num;
    }
  }

  lemma {:induction false} AllPathsEnd(topo: seq<Info>, n: nat)
    requires Ordered(topo) && n <= |topo| && (forall i :: 0 <= i < |topo| ==> InfoAt(topo, i))
    ensures PathsEnd(NameAll(topo, n))
    decreases n
  {
    if n > 0 {
      AllPathsEnd(topo, n - 1);
      assert InfoAt(topo, n - 1);
      NextPathEnds(topo, NameAll(topo, n - 1));
    }
  }

  /** No two devices get the same path. */
  lemma PathsDistinct(topo: seq<Info>, i: nat, j: nat)
    requires Ordered(topo) && NoClash(topo) && (forall k :: 0 <= k < |topo| ==> InfoAt(topo, k)) && i < j < |topo|
    ensures NameAll(topo, |topo|).paths[i] != NameAll(topo, |topo|).paths[j]
  {
    NicknamesDistinct(topo, i, j);
    AllPathsEnd(topo, |topo|);
    NameAllKeeps(topo, |topo|);
    var st := NameAll(topo, |topo|);
    assert KeyOk(topo, st, i) && KeyOk(topo, st, j);
    NoSlash(st.keys[i]);
    NoSlash(st.keys[j]);
    if st.paths[i] == st.paths[j] {
      LastComponent(st.paths[i], Render(st.keys[i]), Render(st.keys[j]));
    }
  }

  /** The devices of a bus are below the same bridge. */
  ghost predicate OneBridgePerBus(topo: seq<Info>) {
    forall i, j :: 0 <= i < |topo| && 0 <= j < |topo| && topo[i].bus == topo[j].bus ==>
      topo[i].parent == topo[j].parent && topo[i].sibling == topo[j].sibling
  }

  /** Devices that clash get the same nickname and the same path: the first of them ... */
  lemma ClashNext(topo: seq<Info>, s: Naming, t: Naming)
    requires |s.keys| == |s.paths| < |t.keys| == |t.paths| < |topo| == |s.ports| == |t.ports|
    requires InfoOk(topo, |s.keys|) && InfoAt(topo, |s.keys|) && InfoAt(topo, |t.keys|)
    requires s.keys <= t.keys && s.paths <= t.paths && Clash(topo[|s.keys|], topo[|t.keys|])
    requires topo[|s.keys|].parent == topo[|t.keys|].parent && topo[|s.keys|].sibling == topo[|t.keys|].sibling
    ensures NextKey(topo, s) == NextKey(topo, t) && NextPath(topo, s) == NextPath(topo, t)
  {
    var d := topo[|s.keys|];
    if d.sibling >= 0 && d.devFn != 0 { assert s.keys[d.sibling] == t.keys[d.sibling]; }
    if d.parent >= 0 { assert s.paths[d.parent] == t.paths[d.parent]; }
  }

  /** ... and the second. */
  lemma ClashShares(topo: seq<Info>, i: nat, j: nat)
    requires Ordered(topo) && OneBridgePerBus(topo) && (forall k :: 0 <= k < |topo| ==> InfoAt(topo, k))
    requires i < j < |topo| && Clash(topo[i], topo[j])
    ensures NameAll(topo, |topo|).keys[i] == NameAll(topo, |topo|).keys[j]
    ensures NameAll(topo, |topo|).paths[i] == NameAll(topo, |topo|).paths[j]
  {
    assert InfoOk(topo, i) && InfoAt(topo, i) && InfoAt(topo, j);
    Settled(topo, i);
    Settled(topo, j);
    NameAllExtends(topo, i, j);
    ClashNext(topo, NameAll(topo, i), NameAll(topo, j));
  }

  ghost predicate NicknamesDiffer(keys: seq<Key>) {
    forall i, j :: 0 <= i < j < |keys| ==> Render(keys[i]) != Render(keys[j])
  }

  ghost predicate PathsDiffer(paths: seq<string>) { forall i, j :: 0 <= i < j < |paths| ==> paths[i] != paths[j] }

  lemma AllNicknamesDiffer(topo: seq<Info>, st: Naming)
    requires Ordered(topo) && NoClash(topo) && (forall k :: 0 <= k < |topo| ==> InfoAt(topo, k))
    requires st == NameAll(topo, |topo|)
    ensures NicknamesDiffer(st.keys)
  {
    forall i, j | 0 <= i < j < |st.keys| ensures Render(st.keys[i]) != Render(st.keys[j]) {
      NicknamesDistinct(topo, i, j);
    }
  }

  lemma AllPathsDiffer(topo: seq<Info>, st: Naming)
    requires Ordered(topo) && NoClash(topo) && (forall k :: 0 <= k < |topo| ==> InfoAt(topo, k))
    requires st == NameAll(topo, |topo|)
    ensures PathsDiffer(st.paths)
  {
    forall i, j | 0 <= i < j < |st.paths| ensures st.paths[i] != st.paths[j] {
      PathsDistinct(topo, i, j);
    }
  }

  /** All nicknames, and all paths, are different exactly if no two devices clash. */
  lemma NamesExactly(topo: seq<Info>)
    requires Ordered(topo) && OneBridgePerBus(topo) && (forall k :: 0 <= k < |topo| ==> InfoAt(topo, k))
    ensures NoClash(topo) <==> NicknamesDiffer(NameAll(topo, |topo|).keys)
    ensures NoClash(topo) <==> PathsDiffer(NameAll(topo, |topo|).paths)
  {
    if NoClash(topo) {
      AllNicknamesDiffer(topo, NameAll(topo, |topo|));
      AllPathsDiffer(topo, NameAll(topo, |topo|));
    } else {
      var i, j :| 0 <= i < j < |topo| && Clash(topo[i], topo[j]);
      ClashShares(topo, i, j);
      SomeShare(NameAll(topo, |topo|), i, j);
    }
  }

  /** Two unnamed functions of two PCI domains: their names and paths are the same. */
  lemma TwoDomainsClash() returns (topo: seq<Info>)
    ensures |topo| == 2 && topo[0] == topo[1] && !topo[0].down && topo[0].base == ""
    ensures Ordered(topo) && OneBridgePerBus(topo) && (forall k :: 0 <= k < |topo| ==> InfoAt(topo, k))
    ensures NameAll(topo, 2).keys[0] == NameAll(topo, 2).keys[1]
    ensures NameAll(topo, 2).paths[0] == NameAll(topo, 2).paths[1]
  {
    topo := [Info(3, 8, "", false, -1, -1), Info(3, 8, "", false, -1, -1)];
    assert InfoOk(topo, 0) && InfoOk(topo, 1) && InfoAt(topo, 0) && InfoAt(topo, 1);
    ClashShares(topo, 0, 1);
  }

  lemma SomeShare(st: Naming, i: nat, j: nat)
    requires i < j < |st.keys| == |st.paths| && st.keys[i] == st.keys[j] && st.paths[i] == st.paths[j]
    ensures !NicknamesDiffer(st.keys) && !PathsDiffer(st.paths)
  {
    assert Render(st.keys[i]) == Render(st.keys[j]);
  }

  /** The path of device `i`, read off its chain of parents. */
  function ChainPath(topo: seq<Info>, keys: seq<Key>, i: nat): string
    requires i < |keys| == |topo| && (forall k :: 0 <= k < |topo| ==> InfoAt(topo, k))
    decreases i
  {
    assert InfoAt(topo, i);
    var d := topo[i];
    var nick := Render(keys[i]);
    if d.parent < 0 then nick
    else if d.down then
      ChainPath(topo, keys, d.parent) + if keys[i].PortKey? then "p" + Dec(keys[i].port) else ""
    else ChainPath(topo, keys, d.parent) + "/" + nick
  }

  /** What is named stays. */
  lemma {:induction false} NameAllExtends(topo: seq<Info>, n: nat, m: nat)
    requires n <= m <= |topo| && (forall k :: 0 <= k < |topo| ==> InfoAt(topo, k))
    ensures NameAll(topo, n).keys <= NameAll(topo, m).keys
    ensures NameAll(topo, n).paths <= NameAll(topo, m).paths
    decreases m
  {
    if n < m { NameAllExtends(topo, n, m - 1); }
  }

  /** What a device got when its turn came is what it has in the end, and so for those before. */
  lemma Settled(topo: seq<Info>, i: nat)
    requires i < |topo| && (forall k :: 0 <= k < |topo| ==> InfoAt(topo, k))
    ensures var st, all := NameAll(topo, i), NameAll(topo, |topo|);
      && all.keys[i] == NextKey(topo, st) && all.paths[i] == NextPath(topo, st)
      && st.keys == all.keys[..i] && st.paths == all.paths[..i]
  {
    NameAllExtends(topo, i + 1, |topo|);
    var st, next, all := NameAll(topo, i), NameAll(topo, i + 1), NameAll(topo, |topo|);
    assert next.keys[i] == all.keys[i] && next.paths[i] == all.paths[i];
    assert st.keys == next.keys[..i] && st.paths == next.paths[..i];
    assert next.keys[..i] == all.keys[..i] && next.paths[..i] == all.paths[..i];
  }

  /** Every path is the concatenation along the chain of parents: none was built from a parent's
      path that was still to come. */
  lemma {:induction false} PathsFollowChain(topo: seq<Info>, i: nat)
    requires i < |topo| && (forall k :: 0 <= k < |topo| ==> InfoAt(topo, k))
    ensures NameAll(topo, |topo|).paths[i] == ChainPath(topo, NameAll(topo, |topo|).keys, i)
    decreases i
  {
    assert InfoAt(topo, i);
    Settled(topo, i);
    var st, all := NameAll(topo, i), NameAll(topo, |topo|);
    if topo[i].parent >= 0 {
      PathsFollowChain(topo, topo[i].parent);
      assert all.paths[topo[i].parent] == st.paths[topo[i].parent];
    }
  }

  /** The next nickname and path, spelled out. */
  lemma NextSpelled(topo: seq<Info>, st: Naming)
    requires |st.keys| == |st.paths| < |topo| == |st.ports| && InfoAt(topo, |st.keys|)
    ensures var d, nick, path := topo[|st.keys|], Render(NextKey(topo, st)), NextPath(topo, st);
      if d.down then
        PortStep(nick, Render(st.keys[d.parent]), st.ports[d.parent])
        && PortStep(path, st.paths[d.parent], st.ports[d.parent])
      else
        && nick == (
             if d.base != "" then d.base + Dec(Count(st.counts, d.base))
             else if d.devFn == 0 then "bus-" + Hex2(d.bus) + "h"
             else if d.sibling >= 0 then Render(st.keys[d.sibling]) + "." + Dec(d.devFn)
             else Hex2(d.bus) + ":" + Hex2(d.devFn / 8) + "." + Dec(d.devFn % 8))
        && path == (if d.parent >= 0 then st.paths[d.parent] + "/" + nick else nick)
  {
  }

  lemma CountsSpelled(topo: seq<Info>, st: Naming)
    requires |st.keys| == |st.paths| < |topo| == |st.ports| && InfoAt(topo, |st.keys|)
    ensures var d, counts := topo[|st.keys|], NameNext(topo, st).counts;
      && (d.down || d.base == "" ==> counts == st.counts)
      && (!d.down && d.base != "" ==> counts == st.counts[d.base := Count(st.counts, d.base) + 1])
  {
  }

  /** How a finished path relates to the finished path of the parent. */
  ghost predicate PathStep(topo: seq<Info>, st: Naming, i: nat)
    requires i < |topo| == |st.keys| == |st.paths| && -1 <= topo[i].parent < |topo|
  {
    var d := topo[i];
    var nick := Render(st.keys[i]);
    if d.parent < 0 then st.paths[i] == nick
    else if d.down then
      exists n: nat :: PortStep(st.paths[i], st.paths[d.parent], n) && PortStep(nick, Render(st.keys[d.parent]), n)
    else st.paths[i] == st.paths[d.parent] + "/" + nick
  }

  predicate PortStep(s: string, parent: string, n: nat) { s == parent + "p" + Dec(n) }

  lemma PathSteps(topo: seq<Info>, i: nat)
    requires i < |topo| && (forall k :: 0 <= k < |topo| ==> InfoAt(topo, k))
    ensures InfoAt(topo, i) && PathStep(topo, NameAll(topo, |topo|), i)
  {
    assert InfoAt(topo, i);
    Settled(topo, i);
    StepSpelled(topo, NameAll(topo, i), NameAll(topo, |topo|), i);
  }

  lemma StepSpelled(topo: seq<Info>, st: Naming, all: Naming, i: nat)
    requires i < |topo| == |all.keys| == |all.paths| == |st.ports| && InfoAt(topo, i)
    requires |st.keys| == |st.paths| == i && st.keys == all.keys[..i] && st.paths == all.paths[..i]
    requires all.keys[i] == NextKey(topo, st) && all.paths[i] == NextPath(topo, st)
    ensures PathStep(topo, all, i)
  {
    NextSpelled(topo, st);
    var p := topo[i].parent;
    assert p >= 0 ==> all.paths[p] == st.paths[p] && all.keys[p] == st.keys[p];
  }

  // ---- An example ----

  /** A switch below a root port, with a two-function device behind its port, and a device of the
      root bus. */
  function Sample(): seq<Info> {
    [Info(0, 0xe0, "ROOT", false, -1, -1), Info(1, 0, "PLX", false, 0, 1), Info(2, 8, "", true, 1, -1),
     Info(3, 0, "", false, 2, 3), Info(3, 1, "", false, 2, 3), Info(0, 0xfb, "", false, -1, -1)]
  }

  lemma SampleNamed() returns (st: Naming)
    ensures (forall k :: 0 <= k < 6 ==> InfoAt(Sample(), k)) && st == NameAll(Sample(), 6) && |st.keys| == 6
    ensures Render(st.keys[0]) == "ROOT0" && st.paths[0] == "ROOT0"
    ensures Render(st.keys[1]) == "PLX0" && st.paths[1] == "ROOT0/PLX0"
    ensures Render(st.keys[2]) == "PLX0p0" && st.paths[2] == "ROOT0/PLX0p0"
    ensures Render(st.keys[3]) == "bus-03h" && st.paths[3] == "ROOT0/PLX0p0/bus-03h"
    ensures Render(st.keys[4]) == "bus-03h.1" && st.paths[4] == "ROOT0/PLX0p0/bus-03h.1"
    ensures Render(st.keys[5]) == "00:1f.3" && st.paths[5] == "00:1f.3"
  {
    var st3 := SampleSwitch();
    SampleTexts();
    SampleRest(st3);
    st := NameAll(Sample(), 6);
    assert forall k :: 0 <= k < 3 ==> st.keys[k] == st.keys[..3][k] && st.paths[k] == st.paths[..3][k];
  }

  /** The texts themselves. */
  lemma SampleTexts()
    ensures Render(Named("ROOT", 0)) == "ROOT0" && Render(Named("PLX", 0)) == "PLX0"
    ensures Render(PortKey(Named("PLX", 0), 0)) == "PLX0p0"
    ensures Render(BusKey(3)) == "bus-03h" && Render(SubKey(BusKey(3), 1)) == "bus-03h.1"
    ensures Render(FnKey(0, 0xfb)) == "00:1f.3"
  {
    assert Dec(0) == "0" && Dec(1) == "1" && Dec(3) == "3" && Hex2(3) == "03" && Hex2(0) == "00" && Hex2(31) == "1f";
  }

  lemma SampleSwitch() returns (st: Naming)
    ensures (forall k :: 0 <= k < 6 ==> InfoAt(Sample(), k)) && st == NameAll(Sample(), 3)
    ensures |st.keys| == |st.paths| == 3 && |st.ports| == 6 && st.ports[1] == 1
    ensures st.keys[0] == Named("ROOT", 0) && st.keys[1] == Named("PLX", 0)
    ensures st.keys[2] == PortKey(Named("PLX", 0), 0)
    ensures st.paths[0] == "ROOT0" && st.paths[1] == "ROOT0/PLX0" && st.paths[2] == "ROOT0/PLX0p0"
  {
    SampleTexts();
    var t := Sample();
    assert forall k :: 0 <= k < 6 ==> InfoAt(t, k);
    var st1 := NameAll(t, 1);
    assert st1.keys[0] == Named("ROOT", 0) && st1.counts == map["ROOT" := 1];
    var st2 := NameAll(t, 2);
    assert st2 == NameNext(t, st1) && st2.keys[1] == Named("PLX", 0);
    assert Dec(0) == "0";
    st := NameAll(t, 3);
    assert st == NameNext(t, st2);
  }

  lemma SampleRest(st3: Naming)
    requires (forall k :: 0 <= k < 6 ==> InfoAt(Sample(), k)) && st3 == NameAll(Sample(), 3)
    requires |st3.keys| == |st3.paths| == 3 && |st3.ports| == 6 && st3.paths[2] == "ROOT0/PLX0p0"
    ensures var st := NameAll(Sample(), 6);
      && st.keys[3] == BusKey(3) && st.keys[4] == SubKey(BusKey(3), 1) && st.keys[5] == FnKey(0, 0xfb)
      && st.paths[3] == "ROOT0/PLX0p0/bus-03h" && st.paths[4] == "ROOT0/PLX0p0/bus-03h.1"
      && st.paths[5] == "00:1f.3" && st.keys[..3] == st3.keys && st.paths[..3] == st3.paths
  {
    SampleTexts();
    var t := Sample();
    var st4 := NameAll(t, 4);
    assert st4 == NameNext(t, st3) && st4.keys[3] == BusKey(3) && st4.paths[3] == "ROOT0/PLX0p0/bus-03h";
    var st5 := NameAll(t, 5);
    assert st5 == NameNext(t, st4) && st5.keys[4] == SubKey(BusKey(3), 1);
    assert st5.paths[4] == "ROOT0/PLX0p0/bus-03h.1";
    var st6 := NameAll(t, 6);
    assert st6 == NameNext(t, st5) && st6.keys[5] == FnKey(0, 0xfb);
    assert st6.keys[..3] == st3.keys && st6.paths[..3] == st3.paths;
  }
}
