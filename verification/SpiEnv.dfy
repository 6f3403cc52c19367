/** Writing boot environment variables into the image (spiMakeEnv in cmds/ast/ast.go). */
module SpiEnv {
  import opened Bits
  import opened Outcomes

  const NEWLINE: byte := 10
  const SECTOR: nat := 0x1_0000

  /** `strings.Split(s, "\n")`. */
  function Split(s: seq<byte>): (l: seq<seq<byte>>)
    ensures |l| >= 1
  {
    if s == [] then [[]]
    else
      var l := Split(s[1..]);
      if s[0] == NEWLINE then [[]] + l else [[s[0]] + l[0]] + l[1..]
  }

  /** The pieces with newlines in between. */
  function Join(l: seq<seq<byte>>): seq<byte>
    requires |l| >= 1
  {
    if |l| == 1 then l[0] else l[0] + [NEWLINE] + Join(l[1..])
  }

  /** `Split` is the one way to cut at every newline: its pieces hold none, and joining them
      gives the text back. */
  lemma {:induction false} SplitJoins(s: seq<byte>)
    ensures Join(Split(s)) == s
    ensures forall i :: 0 <= i < |Split(s)| ==> NEWLINE !in Split(s)[i]
  {
    if s != [] {
      SplitJoins(s[1..]);
      var l, r := Split(s), Split(s[1..]);
      if s[0] != NEWLINE {
        assert l[1..] == r[1..];
        if |r| > 1 {
          assert Join(l) == [s[0]] + (r[0] + [NEWLINE] + Join(r[1..]));
        }
      } else {
        assert l[1..] == r;
      }
    }
  }

  /** Each line with a NUL behind it. */
  function Lines(l: seq<seq<byte>>): seq<byte> {
    if l == [] then [] else Lines(l[..|l| - 1]) + l[|l| - 1] + [0]
  }

  /** The text area of the sector: the lines, and one more NUL. */
  function Encode(l: seq<seq<byte>>): seq<byte> { Lines(l) + [0] }

  /** What a reader of the sector sees: NUL-terminated strings up to the empty one. */
  function ReadStrings(s: seq<byte>): seq<seq<byte>> {
    var k := FirstNul(s);
    if k == 0 || k >= |s| then [] else [s[..k]] + ReadStrings(s[k + 1..])
  }

  /** The position of the first NUL, or the length. */
  function FirstNul(s: seq<byte>): (k: nat)
    ensures k <= |s| && (k < |s| ==> s[k] == 0)
    ensures forall i :: 0 <= i < k ==> s[i] != 0
  {
    if s == [] || s[0] == 0 then 0 else 1 + FirstNul(s[1..])
  }

  /** The lines a reader can tell apart. */
  ghost predicate Readable(l: seq<seq<byte>>) {
    forall i :: 0 <= i < |l| ==> l[i] != [] && 0 !in l[i]
  }

  lemma {:induction false} LinesCons(l: seq<seq<byte>>)
    requires l != []
    ensures Lines(l) == l[0] + [0] + Lines(l[1..])
  {
    if |l| > 1 {
      LinesCons(l[..|l| - 1]);
      assert l[..|l| - 1][1..] == l[1..][..|l| - 2];
    }
  }

  /** Reading gives back readable lines, whatever follows the text area. */
  lemma {:induction false} ReadsBack(l: seq<seq<byte>>, rest: seq<byte>)
    requires Readable(l)
    ensures ReadStrings(Encode(l) + rest) == l
    decreases |l|
  {
    if l == [] {
      assert FirstNul(Encode(l) + rest) == 0;
    } else {
      LinesCons(l);
      var tail := Encode(l[1..]) + rest;
      ReadsBack(l[1..], rest);
      assert Encode(l) + rest == l[0] + [0] + tail;
      FirstString(l[0], tail);
      assert [l[0]] + l[1..] == l;
    }
  }

  lemma FirstString(v: seq<byte>, tail: seq<byte>)
    requires v != [] && 0 !in v
    ensures ReadStrings(v + [0] + tail) == [v] + ReadStrings(tail)
  {
    var s := v + [0] + tail;
    assert s[|v|] == 0;
    forall i | 0 <= i < |v| ensures s[i] != 0 {
      assert s[i] == v[i] && v[i] in v;
    }
    assert FirstNul(s) == |v|;
    assert s[..|v|] == v && s[|v| + 1..] == tail;
  }

  /** Whatever is read is readable. */
  lemma {:induction false} ReadIsReadable(s: seq<byte>)
    ensures Readable(ReadStrings(s))
    decreases |s|
  {
    var k := FirstNul(s);
    if 0 < k < |s| { ReadIsReadable(s[k + 1..]); }
  }

  /** The sector can be read back exactly when no line is empty or holds a NUL. */
  lemma RoundTrip(env: seq<byte>, rest: seq<byte>)
    ensures ReadStrings(Encode(Split(env)) + rest) == Split(env) <==> Readable(Split(env))
  {
    if Readable(Split(env)) { ReadsBack(Split(env), rest); }
    ReadIsReadable(Encode(Split(env)) + rest);
  }

  lemma {:induction false} EncodeLength(s: seq<byte>)
    ensures |Encode(Split(s))| == |s| + 2
  {
    LinesCons(Split(s));
    if s != [] {
      EncodeLength(s[1..]);
      var l, r := Split(s), Split(s[1..]);
      LinesCons(r);
      if s[0] == NEWLINE {
        assert l[1..] == r && |Lines(l)| == 1 + |Lines(r)|;
      } else {
        assert l[1..] == r[1..] && l[0] == [s[0]] + r[0];
      }
    }
  }

  /** The bytes outside [from, to) are those of `before`. */
  twostate predicate OnlyBetween(b: array<byte>, from: nat, to: nat)
    reads b
  {
    forall k :: 0 <= k < b.Length && !(from <= k < to) ==> b[k] == old(b[k])
  }

  /** The finished sector. */
  ghost predicate SectorHolds(s: seq<byte>, env: seq<byte>, crc: seq<byte> -> word)
    requires |s| == SECTOR
  {
    var text := Encode(Split(env));
    && 5 + |text| <= SECTOR
    && s[..4] == LeBytes(crc(s[5..])) && s[4] == 1
    && s[5..5 + |text|] == text
    && forall k :: 5 + |text| <= k < SECTOR ==> s[k] == 0xff
  }

  /** A finished sector, read back: the checksum matches, and the strings are the lines of the
      text exactly when the lines are readable. */
  lemma SectorReads(s: seq<byte>, env: seq<byte>, crc: seq<byte> -> word)
    requires |s| == SECTOR && SectorHolds(s, env, crc)
    ensures Le32(s[..4]) == crc(s[5..])
    ensures ReadStrings(s[5..]) == Split(env) <==> Readable(Split(env))
  {
    var text := Encode(Split(env));
    assert s[5..] == text + s[5 + |text|..];
    RoundTrip(env, s[5 + |text|..]);
    LeLoad(crc(s[5..]));
  }

  /** Copies `v` and a NUL to `pos`; None where the Go code indexes past the sector. */
  method PutLine(b: array<byte>, base: nat, start: nat, v: seq<byte>) returns (pos: Option<nat>)
    requires base + SECTOR <= b.Length && start <= SECTOR
    modifies b
    ensures pos == if start + |v| + 1 <= SECTOR then Some(start + |v| + 1) else None
    ensures OnlyBetween(b, base + start, base + SECTOR)
    ensures pos.Some? ==> OnlyBetween(b, base + start, base + pos.value)
    ensures pos.Some? ==> b[base + start..base + pos.value] == v + [0]
  {
    var p := start;
    for i := 0 to |v|
      invariant p == start + i <= SECTOR
      invariant OnlyBetween(b, base + start, base + p)
      invariant b[base + start..base + p] == v[..i]
    {
      if p >= SECTOR { return None; }
      ghost var done := b[base + start..base + p];
      b[base + p] := v[i];
      assert b[base + start..base + p + 1] == done + [v[i]];
      p := p + 1;
    }
    assert v[..|v|] == v;
    if p >= SECTOR { return None; }
    ghost var done := b[base + start..base + p];
    b[base + p] := 0;
    assert b[base + start..base + p + 1] == done + [0];
    pos := Some(p + 1);
  }

  /** The lines one after the other from offset 5 on. */
  method PutLines(b: array<byte>, base: nat, l: seq<seq<byte>>) returns (pos: Option<nat>)
    requires base + SECTOR <= b.Length
    modifies b
    ensures pos == if 5 + |Lines(l)| <= SECTOR then Some(5 + |Lines(l)|) else None
    ensures OnlyBetween(b, base + 5, base + SECTOR)
    ensures pos.Some? ==> OnlyBetween(b, base + 5, base + pos.value)
    ensures pos.Some? ==> b[base + 5..base + pos.value] == Lines(l)
  {
    var p := 5;
    for i := 0 to |l|
      invariant p == 5 + |Lines(l[..i])| <= SECTOR
      invariant OnlyBetween(b, base + 5, base + p)
      invariant b[base + 5..base + p] == Lines(l[..i])
    {
      ghost var done := b[base + 5..base + p];
      ghost var was := b[..];
      assert l[..i + 1][..i] == l[..i];
      LinesGrow(l, i + 1);
      var q := PutLine(b, base, p, l[i]);
      if q == None { return None; }
      assert b[base + 5..base + p] == done by {
        assert forall k :: base + 5 <= k < base + p ==> b[k] == was[k];
      }
      assert b[base + 5..base + q.value] == done + b[base + p..base + q.value];
      p := q.value;
    }
    assert l[..|l|] == l;
    pos := Some(p);
  }

  /** More lines take more room. */
  lemma {:induction false} LinesGrow(l: seq<seq<byte>>, i: nat)
    requires i <= |l|
    ensures |Lines(l[..i])| <= |Lines(l)|
    decreases |l|
  {
    if i < |l| {
      LinesGrow(l[..|l| - 1], i);
      assert l[..|l| - 1][..i] == l[..i];
    } else {
      assert l[..i] == l;
    }
  }

  /** The sector is all ones. */
  ghost predicate Cleared(b: array<byte>, base: nat)
    reads b
  {
    base + SECTOR <= b.Length && forall k :: base <= k < base + SECTOR ==> b[k] == 0xff
  }

  method IsCleared(b: array<byte>, base: nat) returns (ok: bool)
    requires base + SECTOR <= b.Length
    ensures ok <==> Cleared(b, base)
  {
    for i := 0 to SECTOR
      invariant forall k :: base <= k < base + i ==> b[k] == 0xff
    {
      if b[base + i] != 0xff { return false; }
    }
    ok := true;
  }

  /** The flag, the text and the padding are in place. */
  ghost predicate TextAt(b: array<byte>, base: nat, env: seq<byte>)
    requires base + SECTOR <= b.Length
    reads b
  {
    var text := Encode(Split(env));
    && 5 + |text| <= SECTOR && b[base + 4] == 1 && b[base + 5..base + 5 + |text|] == text
    && forall k :: base + 5 + |text| <= k < base + SECTOR ==> b[k] == 0xff
  }

  /** The text area: the flag byte, the lines and the closing NUL. */
  method PutText(b: array<byte>, base: nat, env: seq<byte>) returns (ok: bool)
    requires Cleared(b, base)
    modifies b
    ensures ok <==> |env| + 7 <= SECTOR
    ensures OnlyBetween(b, base, base + SECTOR)
    ensures ok ==> TextAt(b, base, env)
  {
    EncodeLength(env);
    var l := Split(env);
    b[base + 4] := 1;
    var p := PutLines(b, base, l);
    if p == None { return false; }
    var pos := p.value;
    if pos >= SECTOR { return false; }
    ghost var done := b[base + 5..base + pos];
    b[base + pos] := 0;
    assert b[base + 5..base + pos + 1] == done + [0];
    ok := true;
  }

  /** The finished sector, byte by byte: the checksum, least significant byte first; the flag; the
      text with NULs for its newlines and two more behind it; and erased bytes. */
  ghost predicate SectorBytes(s: seq<byte>, env: seq<byte>, sum: word) {
    && |s| == 0x1_0000 && |env| + 7 <= 0x1_0000
    && s[0] == sum % 256 && s[1] == sum / 256 % 256 && s[2] == sum / 65536 % 256 && s[3] == sum / 16777216
    && s[4] == 1
    && (forall i :: 0 <= i < |env| ==> s[5 + i] == if env[i] == 10 then 0 else env[i])
    && s[5 + |env|] == 0 && s[6 + |env|] == 0
    && (forall k :: 7 + |env| <= k < 0x1_0000 ==> s[k] == 255)
  }

  /** In the text area a newline is a NUL, every other byte stands as it is, and two NULs follow. */
  lemma {:induction false} EncodeBytes(s: seq<byte>)
    ensures |Encode(Split(s))| == |s| + 2
    ensures forall i :: 0 <= i < |s| ==> Encode(Split(s))[i] == if s[i] == 10 then 0 else s[i]
    ensures Encode(Split(s))[|s|] == 0 && Encode(Split(s))[|s| + 1] == 0
  {
    EncodeLength(s);
    LinesCons(Split(s));
    if s != [] {
      EncodeBytes(s[1..]);
      EncodeCons(s);
    }
  }

  lemma EncodeCons(s: seq<byte>)
    requires s != []
    ensures Encode(Split(s)) == [if s[0] == 10 then 0 else s[0]] + Encode(Split(s[1..]))
  {
    if s[0] == NEWLINE { EmptyLine(Split(s[1..])); } else { LongerLine(s[0], Split(s[1..])); }
  }

  lemma EmptyLine(l: seq<seq<byte>>)
    ensures Lines([[]] + l) == [0] + Lines(l)
  {
    LinesCons([[]] + l);
    assert ([[]] + l)[1..] == l;
  }

  lemma LongerLine(c: byte, l: seq<seq<byte>>)
    requires l != []
    ensures Lines([[c] + l[0]] + l[1..]) == [c] + Lines(l)
  {
    var m, rest := [[c] + l[0]] + l[1..], l[1..];
    assert m[0] == [c] + l[0] && m[1..] == rest;
    assert Lines(m) == ([c] + l[0]) + [0] + Lines(rest) by { LinesCons(m); }
    assert Lines(l) == l[0] + [0] + Lines(rest) by { LinesCons(l); }
    Associates([c], l[0], [0], Lines(rest));
  }

  lemma Associates(a: seq<byte>, b: seq<byte>, c: seq<byte>, d: seq<byte>)
    ensures (a + b) + c + d == a + (b + c + d)
  {
  }

  lemma HoldsBytes(s: seq<byte>, env: seq<byte>, crc: seq<byte> -> word)
    requires |s| == SECTOR && SectorHolds(s, env, crc)
    ensures SectorBytes(s, env, crc(s[5..]))
  {
    EncodeBytes(env);
    var text := Encode(Split(env));
    forall i | 0 <= i < |env| ensures s[5 + i] == if env[i] == 10 then 0 else env[i] {
      assert s[5 + i] == s[5..5 + |text|][i];
    }
    assert s[5 + |env|] == s[5..5 + |text|][|env|] && s[6 + |env|] == s[5..5 + |text|][|env| + 1];
    assert s[0] == s[..4][0] && s[1] == s[..4][1] && s[2] == s[..4][2] && s[3] == s[..4][3];
  }

  /** `crc` stands for the CRC-32 of a byte string. The sector is the 64 KiB from 0x1fc_0000 on in an
      image of 32 MiB, and all of an image of 64 KiB; there is none in others. */
  method SpiMakeEnv(b: array<byte>, env: seq<byte>, crc: seq<byte> -> word) returns (r: Outcome<()>)
    modifies b
    ensures r.Fatal? <==>
      && !(b.Length == 0x200_0000 && forall k :: 0x1fc_0000 <= k < 0x1fd_0000 ==> old(b[k]) == 0xff)
      && !(b.Length == 0x1_0000 && forall k :: 0 <= k < 0x1_0000 ==> old(b[k]) == 0xff)
    ensures r.Fatal? ==> b[..] == old(b[..])
    ensures r == Panic <==> !r.Fatal? && |env| + 7 > 0x1_0000
    ensures b.Length == 0x200_0000 ==>
      forall k :: 0 <= k < 0x200_0000 && !(0x1fc_0000 <= k < 0x1fd_0000) ==> b[k] == old(b[k])
    ensures r.Done? ==>
      if b.Length == 0x200_0000
      then SectorBytes(b[0x1fc_0000..0x1fd_0000], env, crc(b[0x1fc_0005..0x1fd_0000]))
      else b.Length == 0x1_0000 && SectorBytes(b[..], env, crc(b[5..]))
    ensures r.Done? ==> var base := if b.Length == 0x200_0000 then 0x1fc_0000 else 0;
      SectorHolds(b[base..base + SECTOR], env, crc)
  {
    var base: nat;
    if b.Length == 0x200_0000 {
      base := 0x1fc_0000;
    } else if b.Length == SECTOR {
      base := 0;
    } else {
      return Fatal("Where to put env");
    }
    var ok := IsCleared(b, base);
    if !ok { return Fatal("Env sector not originally cleared"); }
    ok := PutText(b, base, env);
    if !ok { return Panic; }
    Seal(b, base, env, crc);
    ghost var s := b[base..base + SECTOR];
    HoldsBytes(s, env, crc);
    assert s[5..] == b[base + 5..base + SECTOR];
    assert base == 0 ==> s == b[..];
    r := Done(());
  }

  /** The checksum. */
  method Seal(b: array<byte>, base: nat, ghost env: seq<byte>, crc: seq<byte> -> word)
    requires base + SECTOR <= b.Length && TextAt(b, base, env)
    modifies b
    ensures OnlyBetween(b, base, base + SECTOR) && SectorHolds(b[base..base + SECTOR], env, crc)
  {
    ghost var s := b[base..base + SECTOR];
    var sum := LeBytes(crc(b[base + 5..base + SECTOR]));
    Slices(b[..], base, SECTOR, SECTOR);
    Slices(b[..], base, SECTOR, 5 + |Encode(Split(env))|);
    assert forall k :: 0 <= k < SECTOR ==> s[k] == b[base + k];
    b[base], b[base + 1], b[base + 2], b[base + 3] := sum[0], sum[1], sum[2], sum[3];
    Finished(b[base..base + SECTOR], s, env, crc, sum);
  }

  lemma Slices(b: seq<byte>, base: nat, size: nat, n: nat)
    requires 5 <= n <= size && base + size <= |b|
    ensures b[base..base + size][5..n] == b[base + 5..base + n]
  {
    var s, t := b[base..base + size], b[base + 5..base + n];
    forall k | 0 <= k < |t| ensures s[5..n][k] == t[k] {
      assert s[5 + k] == b[base + 5 + k];
    }
  }

  lemma Finished(t: seq<byte>, s: seq<byte>, env: seq<byte>, crc: seq<byte> -> word, sum: seq<byte>)
    requires |s| == |t| == SECTOR && |sum| == 4
    requires forall k :: 4 <= k < SECTOR ==> t[k] == s[k]
    requires forall k :: 0 <= k < 4 ==> t[k] == sum[k]
    requires var text := Encode(Split(env));
      && 5 + |text| <= SECTOR && sum == LeBytes(crc(s[5..])) && s[4] == 1
      && s[5..5 + |text|] == text && forall k :: 5 + |text| <= k < SECTOR ==> s[k] == 0xff
    ensures SectorHolds(t, env, crc)
  {
    assert t[5..] == s[5..];
    var text := Encode(Split(env));
    assert t[5..5 + |text|] == s[5..5 + |text|];
  }
}
