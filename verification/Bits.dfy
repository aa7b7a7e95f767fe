/** Bytes, words and bitwise operators on natural numbers. */
module Bits {

  type Byte = x: int | 0 <= x < 0x100

  /** A 4-bit bitfield, as used by the radiotap alignment tables. */
  type Nibble = x: int | 0 <= x < 0x10

  /** Bit `b` of `x`, counted from the least significant bit. */
  predicate Bit(x: nat, b: nat)
  {
    if b == 0 then x % 2 == 1 else Bit(x / 2, b - 1)
  }

  /** `x >> b`. */
  function Shr(x: nat, b: nat): (r: nat)
    ensures r <= x
  {
    if b == 0 then x else Shr(x / 2, b - 1)
  }

  /** `x & y`. */
  function And(x: nat, y: nat): (r: nat)
    ensures r <= x && r <= y
  {
    if x == 0 || y == 0 then 0 else (if x % 2 == 1 && y % 2 == 1 then 1 else 0) + 2 * And(x / 2, y / 2)
  }

  /** `x | y`. */
  function Or(x: nat, y: nat): (r: nat)
    ensures x <= r && y <= r <= x + y
  {
    if x == 0 then y else if y == 0 then x
    else (if x % 2 == 1 || y % 2 == 1 then 1 else 0) + 2 * Or(x / 2, y / 2)
  }

  /** `x ^ y`. */
  function Xor(x: nat, y: nat): (r: nat)
    ensures r <= x + y
  {
    if x == 0 then y else if y == 0 then x
    else (if x % 2 != y % 2 then 1 else 0) + 2 * Xor(x / 2, y / 2)
  }

  /** Byte, little-endian and big-endian loads. */
  function U8(s: seq<Byte>, i: nat): (r: nat)
    requires i < |s|
    ensures r < 0x100
  {
    s[i]
  }

  function Le16(s: seq<Byte>, i: nat): (r: nat)
    requires i + 2 <= |s|
    ensures r < 0x1_0000
  {
    U8(s, i) + 0x100 * U8(s, i + 1)
  }

  function Le32(s: seq<Byte>, i: nat): (r: nat)
    requires i + 4 <= |s|
    ensures r < 0x1_0000_0000
  {
    U8(s, i) + 0x100 * U8(s, i + 1) + 0x1_0000 * U8(s, i + 2) + 0x100_0000 * U8(s, i + 3)
  }

  function Be16(s: seq<Byte>, i: nat): (r: nat)
    requires i + 2 <= |s|
    ensures r < 0x1_0000
  {
    0x100 * U8(s, i) + U8(s, i + 1)
  }

  function Be32(s: seq<Byte>, i: nat): (r: nat)
    requires i + 4 <= |s|
    ensures r < 0x1_0000_0000
  {
    0x100_0000 * U8(s, i) + 0x1_0000 * U8(s, i + 1) + 0x100 * U8(s, i + 2) + U8(s, i + 3)
  }

  /** `cv_ntohs` and `oam_htons` on a little-endian host; its own inverse. */
  function Swap16(x: nat): (r: nat)
    requires x < 0x1_0000
    ensures r < 0x1_0000
  {
    x % 0x100 * 0x100 + x / 0x100
  }

  lemma Swap16Twice(x: nat)
    requires x < 0x1_0000
    ensures Swap16(Swap16(x)) == x
  {
    var lo, hi := x % 0x100, x / 0x100;
    assert Swap16(x) % 0x100 == hi && Swap16(x) / 0x100 == lo;
  }

  /** The swap is what turns a field stored on a little-endian host into network order. */
  lemma BigEndian16(s: seq<Byte>, i: nat)
    requires i + 2 <= |s|
    ensures Be16(s, i) == Swap16(Le16(s, i))
  {
    var lo, hi := U8(s, i), U8(s, i + 1);
    assert (lo + 0x100 * hi) % 0x100 == lo && (lo + 0x100 * hi) / 0x100 == hi;
  }

  /** `1 << b`. */
  function Pow2(b: nat): (r: nat)
    ensures r > 0
  {
    if b == 0 then 1 else 2 * Pow2(b - 1)
  }

  lemma {:induction false} BitOr(x: nat, y: nat, b: nat)
    ensures Bit(Or(x, y), b) == (Bit(x, b) || Bit(y, b))
  {
    if x == 0 {
      BitZero(b);
    } else if y == 0 {
      BitZero(b);
    } else if b > 0 {
      BitOr(x / 2, y / 2, b - 1);
    }
  }

  lemma {:induction false} BitZero(b: nat)
    ensures !Bit(0, b)
  {
    if b > 0 {
      BitZero(b - 1);
    }
  }

  lemma {:induction false} BitPow2(i: nat, b: nat)
    ensures Bit(Pow2(i), b) == (i == b)
  {
    if i == 0 && b > 0 {
      BitZero(b - 1);
    } else if i > 0 && b > 0 {
      BitPow2(i - 1, b - 1);
    }
  }

  /** `x & 1 << b` tests bit `b`. */
  lemma {:induction false} AndPow2(x: nat, b: nat)
    ensures And(x, Pow2(b)) != 0 <==> Bit(x, b)
  {
    if x == 0 {
      BitZero(b);
    } else if b == 0 {
      assert And(x / 2, 0) == 0;
    } else {
      AndPow2(x / 2, b - 1);
    }
  }

  /** The lowest `k` bits of `x`. */
  function Low(x: nat, k: nat): (r: nat)
    ensures r < Pow2(k)
  {
    if k == 0 then 0 else x % 2 + 2 * Low(x / 2, k - 1)
  }

  lemma Halves(r: nat, y: nat)
    requires r < 2
    ensures (r + 2 * y) % 2 == r && (r + 2 * y) / 2 == y
  {
  }

  lemma {:induction false} BitLow(x: nat, k: nat, b: nat)
    ensures Bit(Low(x, k), b) == (b < k && Bit(x, b))
  {
    if k == 0 {
      BitZero(b);
    } else {
      Halves(x % 2, Low(x / 2, k - 1));
      if b > 0 {
        BitLow(x / 2, k - 1, b - 1);
      }
    }
  }

  lemma {:induction false} BitBeyond(x: nat, k: nat, b: nat)
    requires x < Pow2(k) && k <= b
    ensures !Bit(x, b)
  {
    if k == 0 {
      BitZero(b);
    } else {
      BitBeyond(x / 2, k - 1, b - 1);
    }
  }

  /** Numbers with the same bits are the same. */
  lemma {:induction false} SameBits(x: nat, y: nat)
    requires forall b: nat :: Bit(x, b) == Bit(y, b)
    ensures x == y
  {
    assert Bit(x, 0) == Bit(y, 0);
    if x != 0 || y != 0 {
      forall b: nat
        ensures Bit(x / 2, b) == Bit(y / 2, b)
      {
        assert Bit(x, b + 1) == Bit(y, b + 1);
      }
      SameBits(x / 2, y / 2);
    }
  }

  lemma {:induction false} ShrBit(x: nat, b: nat)
    ensures Bit(x, b) == (Shr(x, b) % 2 == 1)
    ensures Shr(x, b + 1) == Shr(x, b) / 2
  {
    if b > 0 {
      ShrBit(x / 2, b - 1);
    }
  }

  lemma AndOdd(x: nat, y: nat)
    ensures And(x, 2 * y + 1) == x % 2 + 2 * And(x / 2, y)
  {
  }

  lemma AndZero(x: nat)
    ensures And(x, 0) == 0
  {
  }

  lemma AndOne(x: nat)
    ensures And(x, 1) == x % 2
  {
    AndOdd(x, 0);
    AndZero(x / 2);
    hide And;
  }

  lemma AndThree(x: nat)
    ensures And(x, 3) == x % 4
  {
    AndOdd(x, 1);
    AndOne(x / 2);
    hide And;
    HalfOfFour(x);
  }

  lemma AndSeven(x: nat)
    ensures And(x, 7) == x % 8
  {
    AndOdd(x, 3);
    AndThree(x / 2);
    hide And;
    HalfOfEight(x);
  }

  lemma HalfOfFour(x: nat)
    ensures x % 4 == x % 2 + 2 * (x / 2 % 2)
  {
    RemainderOfFour(x, x / 2 / 2, x / 2 % 2, x % 2);
  }

  lemma RemainderOfFour(x: nat, q: nat, f: nat, e: nat)
    requires f < 2 && e < 2 && x == 2 * (2 * q + f) + e
    ensures x % 4 == e + 2 * f
  {
    assert x == 4 * q + (2 * f + e);
  }

  lemma HalfOfEight(x: nat)
    ensures x % 8 == x % 2 + 2 * (x / 2 % 4)
  {
    RemainderOfEight(x, x / 2 / 4, x / 2 % 4, x % 2);
  }

  lemma RemainderOfEight(x: nat, q: nat, f: nat, e: nat)
    requires f < 4 && e < 2 && x == 2 * (4 * q + f) + e
    ensures x % 8 == e + 2 * f
  {
    assert x == 8 * q + (2 * f + e);
  }

  /** Masking with `2^k - 1`, for the power-of-two alignments a 4-bit field can hold. */
  lemma AndLowMask(x: nat, a: nat)
    requires a in {1, 2, 4, 8}
    ensures And(x, a - 1) == x % a
  {
    hide And;
    match a {
      case 1 => AndZero(x);
      case 2 => AndOne(x);
      case 4 => AndThree(x);
      case _ => AndSeven(x);
    }
  }
}
