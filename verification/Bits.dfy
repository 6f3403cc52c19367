/** Fixed-width numbers, bitwise operators and byte order, over the integers. */
module Bits {

  const TWO32: nat := 0x1_0000_0000

  type byte = b: int | 0 <= b < 256
  type word = w: int | 0 <= w < TWO32

  /** The low 32 bits of a non-negative value: Go's `uint32(x)`. */
  function U32(x: int): word { x % TWO32 }

  /** Bit `k` of `a`, counted from the least significant. */
  predicate Bit(a: nat, k: nat)
    decreases k
  {
    if k == 0 then a % 2 == 1 else Bit(a / 2, k - 1)
  }

  /** Bitwise `a & b`. */
  function And(a: nat, b: nat): (r: nat)
    ensures r <= a && r <= b
  {
    if a == 0 || b == 0 then 0
    else (if a % 2 == 1 && b % 2 == 1 then 1 else 0) + 2 * And(a / 2, b / 2)
  }

  /** Bitwise `a &^ b` (Go's AND-NOT). */
  function AndNot(a: nat, b: nat): (r: nat)
    ensures r <= a
  {
    if a == 0 then 0
    else (if a % 2 == 1 && b % 2 == 0 then 1 else 0) + 2 * AndNot(a / 2, b / 2)
  }

  /** Bitwise `a | b`. */
  function Or(a: nat, b: nat): (r: nat)
    ensures r >= a && r >= b
  {
    if a == 0 then b
    else if b == 0 then a
    else (if a % 2 == 1 || b % 2 == 1 then 1 else 0) + 2 * Or(a / 2, b / 2)
  }

  lemma {:induction false} BitOfZero(k: nat)
    ensures !Bit(0, k)
    decreases k
  {
    if k != 0 { BitOfZero(k - 1); }
  }

  lemma {:induction false} BitOfAnd(a: nat, b: nat, k: nat)
    ensures Bit(And(a, b), k) <==> Bit(a, k) && Bit(b, k)
    decreases k
  {
    if a == 0 || b == 0 {
      BitOfZero(k);
    } else if k != 0 {
      BitOfAnd(a / 2, b / 2, k - 1);
    }
  }

  lemma {:induction false} BitOfAndNot(a: nat, b: nat, k: nat)
    ensures Bit(AndNot(a, b), k) <==> Bit(a, k) && !Bit(b, k)
    decreases k
  {
    if a == 0 {
      BitOfZero(k);
    } else if k != 0 {
      BitOfAndNot(a / 2, b / 2, k - 1);
    }
  }

  lemma {:induction false} BitOfOr(a: nat, b: nat, k: nat)
    ensures Bit(Or(a, b), k) <==> Bit(a, k) || Bit(b, k)
    decreases k
  {
    if a == 0 || b == 0 {
      BitOfZero(k);
    } else if k != 0 {
      BitOfOr(a / 2, b / 2, k - 1);
    }
  }

  /** `2^n`, for stating widths. */
  function Pow2(n: nat): (r: nat)
    ensures r >= 1
  {
    if n == 0 then 1 else 2 * Pow2(n - 1)
  }

  lemma OrFits(a: word, b: word)
    ensures Or(a, b) < TWO32
  {
    Pow32();
    OrBound(a, b, 32);
  }

  lemma {:induction false} OrBound(a: nat, b: nat, n: nat)
    requires a < Pow2(n) && b < Pow2(n)
    ensures Or(a, b) < Pow2(n)
    decreases n
  {
    if n != 0 { OrBound(a / 2, b / 2, n - 1); }
  }

  lemma Pow32()
    ensures Pow2(32) == TWO32
  {
    assert Pow2(8) == 0x100;
    assert Pow2(16) == 0x1_0000;
    assert Pow2(24) == 0x100_0000;
  }

  /** All ones is the identity of AND at its width. */
  lemma {:induction false} AndOnes(b: nat, n: nat)
    requires b < Pow2(n)
    ensures And(Pow2(n) - 1, b) == b
    decreases n
  {
    if b != 0 {
      AndOnes(b / 2, n - 1);
    }
  }

  /** An erased byte accepts any value: programming can only clear bits. */
  lemma AndErased(b: byte)
    ensures And(0xff, b) == b
  {
    assert Pow2(8) == 256;
    AndOnes(b, 8);
  }

  /** Replacing the bits of `a` under the mask `m` by all ones, or by all zeros. */
  lemma {:induction false} MergeMask(a: nat, m: nat, n: nat)
    requires a < Pow2(n) && m < Pow2(n)
    ensures AndNot(a, m) + m < Pow2(n)
    ensures And(AndNot(a, m) + m, m) == m
    ensures And(AndNot(a, m), m) == 0
    decreases n
  {
    if n != 0 {
      MergeMask(a / 2, m / 2, n - 1);
    }
  }

  lemma {:induction false} AndNotZero(a: nat)
    ensures AndNot(a, 0) == a
  {
    if a != 0 { AndNotZero(a / 2); }
  }

  /** Clearing and testing a single bit. */
  lemma {:induction false} SingleBit(a: nat, k: nat)
    ensures AndNot(a, Pow2(k)) == if Bit(a, k) then a - Pow2(k) else a
    ensures And(a, Pow2(k)) == if Bit(a, k) then Pow2(k) else 0
    decreases k
  {
    if a == 0 {
      BitOfZero(k);
    } else if k == 0 {
      AndNotZero(a / 2);
    } else {
      SingleBit(a / 2, k - 1);
    }
  }

  /** Little-endian 32-bit load. */
  function Le32(s: seq<byte>): (w: word)
    requires |s| == 4
  {
    var b0: int, b1: int, b2: int, b3: int := s[0], s[1], s[2], s[3];
    b0 + 0x100 * b1 + 0x1_0000 * b2 + 0x100_0000 * b3
  }

  /** Little-endian 32-bit store. */
  function LeBytes(w: word): (s: seq<byte>)
    ensures |s| == 4
  {
    [w % 0x100, w / 0x100 % 0x100, w / 0x1_0000 % 0x100, w / 0x100_0000]
  }

  /** Big-endian 32-bit load. */
  function Be32(s: seq<byte>): (w: word)
    requires |s| == 4
  {
    var b0: int, b1: int, b2: int, b3: int := s[0], s[1], s[2], s[3];
    0x100_0000 * b0 + 0x1_0000 * b1 + 0x100 * b2 + b3
  }

  /** Big-endian 32-bit store. */
  function BeBytes(w: word): (s: seq<byte>)
    ensures |s| == 4
  {
    [w / 0x100_0000, w / 0x1_0000 % 0x100, w / 0x100 % 0x100, w % 0x100]
  }

  lemma LowByte(a: byte, rest: nat)
    ensures (a + 0x100 * rest) % 0x100 == a && (a + 0x100 * rest) / 0x100 == rest
  {
  }

  lemma LeRoundTrip(s: seq<byte>)
    requires |s| == 4
    ensures LeBytes(Le32(s)) == s
  {
    var w := Le32(s);
    var b1: nat, b2: nat, b3: nat := s[1], s[2], s[3];
    LowByte(s[0], b1 + 0x100 * b2 + 0x1_0000 * b3);
    LowByte(s[1], b2 + 0x100 * b3);
    LowByte(s[2], b3);
    assert w / 0x1_0000 == w / 0x100 / 0x100;
    assert w / 0x100_0000 == w / 0x1_0000 / 0x100;
  }

  lemma LeLoad(w: word)
    ensures Le32(LeBytes(w)) == w
  {
    var a, b, c := w / 0x100, w / 0x1_0000, w / 0x100_0000;
    assert w == 0x100 * a + w % 0x100;
    assert a == 0x100 * b + a % 0x100;
    assert b == 0x100 * c + b % 0x100;
  }

  lemma BeRoundTrip(w: word)
    ensures Be32(BeBytes(w)) == w
  {
    var a, b, c := w / 0x100, w / 0x1_0000, w / 0x100_0000;
    assert w == 0x100 * a + w % 0x100;
    assert a == 0x100 * b + a % 0x100;
    assert b == 0x100 * c + b % 0x100;
  }
}
