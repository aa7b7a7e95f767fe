/** The checksum of a u-blox packet (drivers/gps/ublox.c). */
module Ubx {
  import opened Bits

  function Sum(s: seq<Byte>): nat
  {
    if s == [] then 0 else s[0] + Sum(s[1..])
  }

  /** Each byte times its distance from the end. */
  function Weighted(s: seq<Byte>): nat
  {
    if s == [] then 0 else |s| * s[0] + Weighted(s[1..])
  }

  datatype Checksum = Checksum(a: nat, b: nat)

  function ChecksumOf(s: seq<Byte>): Checksum
  {
    Checksum(Sum(s) % 0x100, Weighted(s) % 0x100)
  }

  lemma {:induction false} Append(s: seq<Byte>, x: Byte)
    ensures Sum(s + [x]) == Sum(s) + x
    ensures Weighted(s + [x]) == Weighted(s) + Sum(s) + x
  {
    if s == [] {
      assert (s + [x])[1..] == [];
    } else {
      assert (s + [x])[1..] == s[1..] + [x];
      Append(s[1..], x);
      assert (|s| + 1) * s[0] == |s| * s[0] + s[0];
    }
  }

  /** What 16-bit accumulation forgets does not matter. */
  lemma Accumulate(sum: nat, x: nat)
    ensures (sum % 0x1_0000 + x) % 0x1_0000 == (sum + x) % 0x1_0000
  {
  }

  lemma LowByte(sum: nat)
    ensures sum % 0x1_0000 % 0x100 == sum % 0x100
  {
  }

  /** `ubx_pkt_checknum_calc`: accumulators of 16 bits, stored in bytes. */
  method ChecknumCalc(buf: seq<Byte>, len: int) returns (cknumA: Byte, cknumB: Byte)
    requires len <= |buf|
    ensures Checksum(cknumA, cknumB) == ChecksumOf(if len < 0 then [] else buf[..len])
  {
    hide Sum, Weighted;
    var ckA: nat, ckB: nat := 0, 0;
    ghost var sumA: nat, sumB: nat := 0, 0;
    EmptySums();
    var i := 0;
    while i < len
      invariant 0 <= i <= |buf| && (i <= len || i == 0)
      invariant sumA == Sum(buf[..i]) && sumB == Weighted(buf[..i])
      invariant ckA == sumA % 0x1_0000 && ckB == sumB % 0x1_0000
    {
      Append(buf[..i], buf[i]);
      assert buf[..i + 1] == buf[..i] + [buf[i]];
      Accumulate(sumA, buf[i]);
      ckA := (ckA + buf[i]) % 0x1_0000;
      Accumulate(sumB, ckA);
      Accumulate(sumA + buf[i], sumB);
      ckB := (ckB + ckA) % 0x1_0000;
      sumA := sumA + buf[i];
      sumB := sumB + sumA;
      i := i + 1;
    }
    LowByte(sumA);
    LowByte(sumB);
    cknumA := ckA % 0x100;
    cknumB := ckB % 0x100;
  }

  lemma EmptySums()
    ensures Sum([]) == 0 == Weighted([])
  {
  }

  /** The checksum runs over the bytes: each is added to the first sum, and that to the second. */
  lemma ChecksumSteps(s: seq<Byte>, x: Byte)
    ensures ChecksumOf([]) == Checksum(0, 0)
    ensures ChecksumOf(s + [x]).a == (ChecksumOf(s).a + x) % 0x100
    ensures ChecksumOf(s + [x]).b == (ChecksumOf(s).b + ChecksumOf(s + [x]).a) % 0x100
  {
    EmptySums();
    Append(s, x);
    hide Sum, Weighted;
    ByteSums(Sum(s), x);
    ByteSums(Sum(s) + x, Weighted(s));
    ByteSums(Weighted(s), (Sum(s) + x) % 0x100);
  }

  lemma ByteSums(a: nat, b: nat)
    ensures (a % 0x100 + b) % 0x100 == (a + b) % 0x100
  {
  }

  lemma {:induction false} Replace(s: seq<Byte>, i: nat, x: Byte)
    requires i < |s|
    ensures Sum(s[i := x]) == Sum(s) + x - s[i]
    ensures Weighted(s[i := x]) == Weighted(s) + (|s| - i) * (x - s[i])
  {
    var t := s[i := x];
    if i == 0 {
      assert t[1..] == s[1..];
      assert |s| * x == |s| * s[0] + |s| * (x - s[0]);
    } else {
      assert t[1..] == s[1..][i - 1 := x];
      Replace(s[1..], i - 1, x);
    }
  }

  /** Damage to one byte or to two neighbours, their exchange included, never goes unnoticed. */
  lemma NeighbourDamageIsSeen(s: seq<Byte>, i: nat, x: Byte, y: Byte)
    requires i + 1 < |s| && (x != s[i] || y != s[i + 1])
    ensures ChecksumOf(s[i := x][i + 1 := y]) != ChecksumOf(s)
  {
    var dx, dy, n := x as int - s[i], y as int - s[i + 1], |s| - i - 1;
    Damaged(s, i, x, y);
    PairMoves(n, dx, dy);
    hide Sum, Weighted;
    Residues(Sum(s), dx + dy);
    Residues(Weighted(s), (n + 1) * dx + n * dy);
  }

  lemma Damaged(s: seq<Byte>, i: nat, x: Byte, y: Byte)
    requires i + 1 < |s|
    ensures var u, dx, dy, n := s[i := x][i + 1 := y], x as int - s[i], y as int - s[i + 1], |s| - i - 1;
            Sum(u) == Sum(s) + (dx + dy) && Weighted(u) == Weighted(s) + ((n + 1) * dx + n * dy)
  {
    Replace(s, i, x);
    Replace(s[i := x], i + 1, y);
    hide Sum, Weighted;
  }

  lemma PairMoves(n: nat, dx: int, dy: int)
    requires -0x100 < dx < 0x100 && -0x100 < dy < 0x100 && (dx != 0 || dy != 0)
    ensures (dx + dy) % 0x100 != 0 || ((n + 1) * dx + n * dy) % 0x100 != 0
  {
    if (dx + dy) % 0x100 == 0 {
      var q := (dx + dy) / 0x100;
      assert (n + 1) * dx + n * dy == n * (0x100 * q) + dx == 0x100 * (n * q) + dx;
    }
  }

  lemma Residues(a: nat, d: int)
    requires a + d >= 0
    ensures (a + d) % 0x100 == a % 0x100 <==> d % 0x100 == 0
  {
  }

  /** Damage to any one byte, the only one included. */
  lemma ByteDamageIsSeen(s: seq<Byte>, i: nat, x: Byte)
    requires i < |s| && x != s[i]
    ensures ChecksumOf(s[i := x]).a != ChecksumOf(s).a
  {
    Replace(s, i, x);
    hide Sum, Weighted;
    Residues(Sum(s), x as int - s[i]);
  }

  /** The exchange of any two bytes is seen exactly when their distance times their difference is no multiple of 256. */
  lemma ExchangeIsSeenIff(s: seq<Byte>, i: nat, j: nat)
    requires i < j < |s|
    ensures ChecksumOf(s[i := s[j]][j := s[i]]) != ChecksumOf(s) <==> (j - i) * (s[j] as int - s[i]) % 0x100 != 0
  {
    Exchanged(s, i, j);
    hide Sum, Weighted;
    Residues(Weighted(s), (j - i) * (s[j] as int - s[i]));
  }

  lemma Exchanged(s: seq<Byte>, i: nat, j: nat)
    requires i < j < |s|
    ensures var u := s[i := s[j]][j := s[i]];
            Sum(u) == Sum(s) && Weighted(u) == Weighted(s) + (j - i) * (s[j] as int - s[i])
  {
    Replace(s, i, s[j]);
    Replace(s[i := s[j]], j, s[i]);
    hide Sum, Weighted;
    ExchangedWeight(|s| - i, |s| - j, s[j] as int - s[i]);
  }

  lemma ExchangedWeight(m: int, n: int, d: int)
    ensures m * d + n * -d == (m - n) * d
  {
  }
}
