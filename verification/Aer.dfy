/** Advanced Error Reporting: the status registers of a PCI Express device (sections 7.8.4.2 and
    7.8.4.5 of the PCI Express Base Specification 4.0) and the poll that counts and clears them
    (errPoll in cmds/pcimon/pcimon.go). */
module Aer {
  import opened Bits

  // ---- The hardware ----

  /** A write-1-to-clear status register; `raised[k]` counts the 0-to-1 transitions of bit k. */
  datatype Sts = Sts(v: word, raised: seq<nat>)

  function One(b: bool): nat { if b then 1 else 0 }

  /** 1 if bit `k` is pending. */
  function Pending(v: word, k: nat): nat { One(Bit(v, k)) }

  /** Errors may have come in: bits were set, never cleared, and each transition is counted. */
  ghost predicate Grew(s: Sts, t: Sts) {
    && |s.raised| == |t.raised| == 32
    && forall k :: 0 <= k < 32 ==>
         && (Bit(s.v, k) ==> Bit(t.v, k))
         && t.raised[k] == s.raised[k] + Pending(t.v, k) - Pending(s.v, k)
  }

  /** More errors come in. */
  function Arrive(s: Sts, bits: word): (t: Sts)
    requires |s.raised| == 32
    ensures Grew(s, t)
  {
    OrFits(s.v, bits);
    var v: word := Or(s.v, bits);
    var t := Sts(v, seq(32, k requires 0 <= k < 32 => s.raised[k] + One(Bit(v, k) && !Bit(s.v, k))));
    assert forall k :: 0 <= k < 32 ==> (Bit(s.v, k) ==> Bit(v, k)) by {
      forall k: nat | k < 32 ensures Bit(s.v, k) ==> Bit(v, k) { BitOfOr(s.v, bits, k); }
    }
    t
  }

  /** The device's two AER status registers, and the values read from each so far, as a bus
      analyser would see them. */
  class AerHw {
    var cor: Sts
    var unc: Sts
    var corReads: seq<word>
    var uncReads: seq<word>

    ghost predicate Valid()
      reads this
    {
      |cor.raised| == 32 && |unc.raised| == 32
    }

    /** Anything may come in before an access is answered. */
    method Errors()
      requires Valid()
      modifies `cor, `unc
      ensures Valid() && Grew(old(cor), cor) && Grew(old(unc), unc)
    {
      var x: word := *;
      var y: word := *;
      cor, unc := Arrive(cor, x), Arrive(unc, y);
    }

    /** Reads the correctable (`0x10`) or uncorrectable (`0x4`) status. */
    method Read32(off: int) returns (v: word)
      requires Valid() && off in {0x4, 0x10}
      modifies this
      ensures Valid() && Grew(old(cor), cor) && Grew(old(unc), unc)
      ensures v == if off == 0x10 then cor.v else unc.v
      ensures corReads == if off == 0x10 then old(corReads) + [v] else old(corReads)
      ensures uncReads == if off == 0x4 then old(uncReads) + [v] else old(uncReads)
    {
      Errors();
      if off == 0x10 {
        v := cor.v;
        corReads := corReads + [v];
      } else {
        v := unc.v;
        uncReads := uncReads + [v];
      }
    }

    /** Writing ones clears. */
    method Write32(off: int, v: word)
      requires Valid() && off in {0x4, 0x10}
      modifies `cor, `unc
      ensures Valid()
      ensures off == 0x10 ==> Cleared(old(cor), cor, v) && Grew(old(unc), unc)
      ensures off == 0x4 ==> Cleared(old(unc), unc, v) && Grew(old(cor), cor)
    {
      Errors();
      if off == 0x10 {
        ClearedBy(old(cor), cor, v);
        cor := cor.(v := AndNot(cor.v, v));
      } else {
        ClearedBy(old(unc), unc, v);
        unc := unc.(v := AndNot(unc.v, v));
      }
    }
  }

  /** `mask` was written to a register that may have grown just before. */
  ghost predicate Cleared(s: Sts, t: Sts, mask: word) {
    && |s.raised| == |t.raised| == 32
    && forall k :: 0 <= k < 32 ==>
         if Bit(mask, k) then
           !Bit(t.v, k) && s.raised[k] <= t.raised[k] <= s.raised[k] + 1 - Pending(s.v, k)
         else
           (Bit(s.v, k) ==> Bit(t.v, k))
           && t.raised[k] == s.raised[k] + Pending(t.v, k) - Pending(s.v, k)
  }

  lemma ClearedBy(s: Sts, m: Sts, mask: word)
    requires Grew(s, m)
    ensures Cleared(s, m.(v := AndNot(m.v, mask)), mask)
  {
    forall k: nat | k < 32
      ensures Bit(AndNot(m.v, mask), k) <==> Bit(m.v, k) && !Bit(mask, k)
    {
      BitOfAndNot(m.v, mask, k);
    }
  }

  // ---- Conservation ----

  /** Since the register was `s0`, every event is counted or still pending: what was pending
      then and every transition since. Masked bits are not counted, so never cleared. */
  ghost predicate Conserved(s0: Sts, s: Sts, counts: seq<nat>, mask: word) {
    && |s0.raised| == |s.raised| == |counts| == 32
    && forall k :: 0 <= k < 32 ==>
         && counts[k] + Pending(s.v, k) == Pending(s0.v, k) + s.raised[k] - s0.raised[k]
         && (Bit(mask, k) ==> counts[k] == 0)
  }

  /** Errors coming in keep the balance. */
  lemma ConservedGrew(s0: Sts, s: Sts, t: Sts, counts: seq<nat>, mask: word)
    requires Conserved(s0, s, counts, mask) && Grew(s, t)
    ensures Conserved(s0, t, counts, mask)
  {
  }

  /** Counting exactly the bits that are then cleared keeps the balance: what came in between
      the read and the write is either already counted as pending or stays pending. */
  lemma ConservedPolled(s0: Sts, s: Sts, t: Sts, counts: seq<nat>, after: seq<nat>, mask: word, err: word)
    requires Conserved(s0, s, counts, mask) && Cleared(s, t, err)
    requires err == AndNot(s.v, mask)
    requires |after| == 32 && forall k :: 0 <= k < 32 ==> after[k] == counts[k] + Pending(err, k)
    ensures Conserved(s0, t, after, mask)
  {
    forall k: nat | k < 32
      ensures after[k] + Pending(t.v, k) == Pending(s0.v, k) + t.raised[k] - s0.raised[k]
      ensures Bit(mask, k) ==> after[k] == 0
    {
      BitOfAndNot(s.v, mask, k);
      assert after[k] == counts[k] + Pending(err, k);
    }
  }

  function Sum(s: seq<nat>): nat {
    if s == [] then 0 else Sum(s[..|s| - 1]) + s[|s| - 1]
  }

  lemma {:induction false} SumUpdate(s: seq<nat>, i: nat, v: nat)
    requires i < |s|
    ensures Sum(s[i := v]) == Sum(s) - s[i] + v
    decreases |s|
  {
    var n := |s| - 1;
    if i == n {
      assert s[i := v][..n] == s[..n];
    } else {
      SumUpdate(s[..n], i, v);
      assert s[i := v][..n] == s[..n][i := v];
    }
  }

  // ---- The poll ----

  /** `v >> n`. */
  function Shift(v: nat, n: nat): nat {
    if n == 0 then v else Shift(v, n - 1) / 2
  }

  lemma {:induction false} BitOfShift(v: nat, n: nat, k: nat)
    ensures Bit(Shift(v, n), k) <==> Bit(v, n + k)
    decreases n
  {
    if n != 0 { BitOfShift(v, n - 1, k + 1); }
  }

  /** The counting loop of `errPoll`, over the bits of `err`. */
  method CountBits(bits: word, before: seq<nat>) returns (counts: seq<nat>, errors: nat)
    requires |before| == 32
    ensures |counts| == 32
    ensures forall k :: 0 <= k < 32 ==> counts[k] == before[k] + Pending(bits, k)
    ensures Sum(counts) == Sum(before) + errors
    ensures errors > 0 <==> bits != 0
  {
    counts, errors := before, 0;
    var err: nat := bits;
    var i := 0;
    Pow32();
    while err != 0
      invariant 0 <= i <= 32 && |counts| == 32 && err < Pow2(32 - i) && err == Shift(bits, i)
      invariant forall k :: 0 <= k < i ==> counts[k] == before[k] + Pending(bits, k)
      invariant forall k :: i <= k < 32 ==> counts[k] == before[k]
      invariant Sum(counts) == Sum(before) + errors
      invariant err != 0 || errors > 0 <==> bits != 0
      decreases err
    {
      BitOfShift(bits, i, 0);
      if err % 2 != 0 {
        SumUpdate(counts, i, counts[i] + 1);
        counts := counts[i := counts[i] + 1];
        errors := errors + 1;
      }
      err := err / 2;
      i := i + 1;
    }
    forall k: nat | i <= k < 32 ensures !Bit(bits, k) {
      BitOfZero(k - i);
      BitOfShift(bits, i, k - i);
    }
  }
}
