/** Sets of roadside alerts as ITIS codes (app/vam/cv_vam_rcp.c). */
module Itis {
  import opened Bits

  type Code = x: nat | x < 0x1_0000

  const DESCRIPTIONS := 8
  const MASK_BITS := 16

  /** The code of each alert, and a last entry for no alert (include/cv_vam.h). */
  const ITIS_CODES: seq<Code> := [0x1C07, 0x1F5A, 0x2029, 0x2025, 0x1F60, 0x1D07, 0x0A04, 0x0704, 0x0000]

  /** A table for `n` alerts whose codes are told apart. */
  predicate Usable(table: seq<Code>, n: nat)
  {
    && DESCRIPTIONS <= n == |table| - 1
    && table[n] == 0
    && forall i | 0 <= i < n :: table[i] != 0 && forall j | 0 <= j < i :: table[i] != table[j]
  }

  /** `encode_itiscode`: bit 0 is returned, bits 1 to 8 overwrite their descriptions. */
  method EncodeItisCode(table: seq<Code>, rsaMask: nat, des: array<Code>) returns (r: Code)
    requires |table| > DESCRIPTIONS && des.Length == DESCRIPTIONS
    modifies des
    ensures [r] + des[..] == Encoded(table, rsaMask, old(des[..]))
  {
    r := 0;
    var bit := 0;
    while bit < 9
      invariant 0 <= bit <= 9 && r == if bit > 0 && Bit(rsaMask, 0) then Swap16(table[0]) else 0
      invariant forall k | 0 <= k < DESCRIPTIONS ::
                  des[k] == if k + 1 < bit && Bit(rsaMask, k + 1) then Swap16(table[k + 1]) else old(des[k])
    {
      AndPow2(rsaMask, bit);
      if And(rsaMask, Pow2(bit)) != 0 {
        if bit == 0 {
          r := Swap16(table[bit]);
        } else {
          des[bit - 1] := Swap16(table[bit]);
        }
      }
      bit := bit + 1;
    }
  }

  /** The type event and the descriptions, in the byte order of the network. */
  function Encoded(table: seq<Code>, rsaMask: nat, prior: seq<Code>): (sent: seq<Code>)
    requires |table| > DESCRIPTIONS && |prior| == DESCRIPTIONS
    ensures |sent| == DESCRIPTIONS + 1
  {
    seq(DESCRIPTIONS + 1, b requires 0 <= b <= DESCRIPTIONS =>
      if Bit(rsaMask, b) then Swap16(table[b]) else if b == 0 then 0 else prior[b - 1])
  }

  /** The bit of an alert: the first entry with this code. */
  predicate Stands(table: seq<Code>, n: nat, code: Code, b: nat)
    requires n <= |table|
  {
    b < n && table[b] == code && forall i | 0 <= i < b :: table[i] != code
  }

  /** The masks are 16 bits wide. */
  ghost predicate Narrow(mask: nat)
  {
    forall b: nat | b >= MASK_BITS :: !Bit(mask, b)
  }

  /** `itiscode_2_rsa_mask`; shifting an `int` is defined for fewer than 31 places. */
  method ItisCodeToRsaMask(table: seq<Code>, n: nat, code: Code, rsaMask: nat) returns (mask: nat)
    requires n <= |table| && n <= 31 && Narrow(rsaMask)
    ensures Narrow(mask)
    ensures forall b: nat | b < MASK_BITS :: Bit(mask, b) <==> Bit(rsaMask, b) || Stands(table, n, code, b)
  {
    mask := rsaMask;
    var i := 0;
    while i < n
      invariant i <= n && mask == rsaMask && forall j | 0 <= j < i :: table[j] != code
    {
      if table[i] == code {
        mask := Low(Or(mask, Pow2(i)), MASK_BITS);
        forall b: nat
          ensures Bit(mask, b) <==> b < MASK_BITS && (Bit(rsaMask, b) || b == i)
        {
          BitLow(Or(rsaMask, Pow2(i)), MASK_BITS, b);
          BitOr(rsaMask, Pow2(i), b);
          BitPow2(i, b);
        }
        break;
      }
      i := i + 1;
    }
  }

  /** `decode_itiscode`. */
  method DecodeItisCode(table: seq<Code>, n: nat, typeEvent: Code, des: array<Code>) returns (rsaMask: nat)
    requires n <= |table| && n <= 31 && des.Length == DESCRIPTIONS
    ensures Decodes(table, n, [typeEvent] + des[..], rsaMask)
  {
    ghost var sent := [typeEvent] + des[..];
    DecodesNothing(table, n);
    rsaMask := ItisCodeToRsaMask(table, n, Swap16(typeEvent), 0);
    DecodesOneMore(table, n, [], typeEvent, 0, rsaMask);
    var k := 0;
    while k < 8
      invariant k <= 8 && Narrow(rsaMask) && Decodes(table, n, sent[..k + 1], rsaMask)
    {
      ghost var before := rsaMask;
      rsaMask := ItisCodeToRsaMask(table, n, Swap16(des[k]), rsaMask);
      DecodesOneMore(table, n, sent[..k + 1], des[k], before, rsaMask);
      assert sent[..k + 2] == sent[..k + 1] + [des[k]];
      k := k + 1;
    }
    assert sent[..k + 1] == sent;
  }

  lemma DecodesNothing(table: seq<Code>, n: nat)
    requires n <= |table|
    ensures Narrow(0) && Decodes(table, n, [], 0)
  {
    forall b: nat
      ensures !Bit(0, b)
    {
      BitZero(b);
    }
  }

  lemma DecodesOneMore(table: seq<Code>, n: nat, sent: seq<Code>, code: Code, mask: nat, mask': nat)
    requires n <= |table| && Decodes(table, n, sent, mask) && Narrow(mask')
    requires forall b: nat | b < MASK_BITS :: Bit(mask', b) <==> Bit(mask, b) || Stands(table, n, Swap16(code), b)
    ensures Decodes(table, n, sent + [code], mask')
  {
    var more := sent + [code];
    hide Stands, Bit, Swap16;
    forall b: nat
      ensures Bit(mask', b) <==> b < MASK_BITS && exists k | 0 <= k < |more| :: Stands(table, n, Swap16(more[k]), b)
    {
      if Bit(mask, b) {
        var k :| 0 <= k < |sent| && Stands(table, n, Swap16(sent[k]), b);
        assert more[k] == sent[k];
      }
      assert more[|sent|] == code;
    }
  }

  /** The mask holds the alerts whose codes were sent, and no others. */
  ghost predicate Decodes(table: seq<Code>, n: nat, sent: seq<Code>, mask: nat)
    requires n <= |table|
  {
    forall b: nat :: Bit(mask, b) <==> b < MASK_BITS && exists k | 0 <= k < |sent| :: Stands(table, n, Swap16(sent[k]), b)
  }

  /** Which alert a received code stands for. */
  lemma SentStands(table: seq<Code>, n: nat, rsaMask: nat, prior: seq<Code>, k: nat, b: nat)
    requires Usable(table, n) && |prior| == DESCRIPTIONS && k <= DESCRIPTIONS && b < n
    ensures Stands(table, n, Swap16(Encoded(table, rsaMask, prior)[k]), b)
            <==> if Bit(rsaMask, k) then k == b else k > 0 && prior[k - 1] == Swap16(table[b])
  {
    var sent := Encoded(table, rsaMask, prior);
    Swap16Twice(table[b]);
    Swap16Twice(table[k]);
    assert Swap16(0) == 0;
    if k > 0 {
      Swap16Twice(prior[k - 1]);
    }
    hide Swap16, Bit;
    assert Stands(table, n, Swap16(sent[k]), b) <==> table[b] == Swap16(sent[k]);
  }

  /** What comes back: the alerts that were set, and those a stale description still names. */
  lemma DecodedBits(table: seq<Code>, n: nat, rsaMask: nat, prior: seq<Code>, mask: nat, b: nat)
    requires Usable(table, n) && |prior| == DESCRIPTIONS
    requires Decodes(table, n, Encoded(table, rsaMask, prior), mask)
    ensures Bit(mask, b)
       <==> b < n && b < MASK_BITS
            && ((b <= DESCRIPTIONS && Bit(rsaMask, b)) || StaleNames(rsaMask, prior, table, b))
  {
    var sent := Encoded(table, rsaMask, prior);
    if b < n {
      forall k: nat | k <= DESCRIPTIONS
        ensures Stands(table, n, Swap16(sent[k]), b)
                <==> if Bit(rsaMask, k) then k == b else k > 0 && prior[k - 1] == Swap16(table[b])
      {
        SentStands(table, n, rsaMask, prior, k, b);
      }
      hide Swap16, Bit, Encoded, Usable, Stands;
      if b <= DESCRIPTIONS && Bit(rsaMask, b) {
        assert Stands(table, n, Swap16(sent[b]), b);
      }
      if StaleNames(rsaMask, prior, table, b) {
        var k :| 0 <= k < DESCRIPTIONS && !Bit(rsaMask, k + 1) && prior[k] == Swap16(table[b]);
        assert Stands(table, n, Swap16(sent[k + 1]), b);
      }
    }
  }

  /** An entry the encoder left alone holds the code of alert `b`. */
  ghost predicate StaleNames(rsaMask: nat, prior: seq<Code>, table: seq<Code>, b: nat)
    requires |prior| == DESCRIPTIONS && b < |table|
  {
    exists k :: 0 <= k < DESCRIPTIONS && !Bit(rsaMask, k + 1) && prior[k] == Swap16(table[b])
  }

  /** With the descriptions zeroed the alerts among the first nine come back, whatever the mask and the table. */
  lemma RoundTrip(table: seq<Code>, n: nat, rsaMask: nat, prior: seq<Code>, mask: nat)
    requires Usable(table, n) && |prior| == DESCRIPTIONS && (forall k | 0 <= k < DESCRIPTIONS :: prior[k] == 0)
    requires Decodes(table, n, Encoded(table, rsaMask, prior), mask)
    ensures mask == Low(rsaMask, if n < 9 then n else 9)
  {
    forall b: nat
      ensures Bit(mask, b) == Bit(Low(rsaMask, if n < 9 then n else 9), b)
    {
      BitLow(rsaMask, if n < 9 then n else 9, b);
      DecodedBits(table, n, rsaMask, prior, mask, b);
      if b < n {
        Swap16Twice(table[b]);
        assert Swap16(0) == 0;
      }
    }
    SameBits(mask, Low(rsaMask, if n < 9 then n else 9));
  }

  /** The repository's own table: all eight alerts survive, bit 8 does not. */
  lemma ShippedTable(rsaMask: nat, mask: nat)
    requires Decodes(ITIS_CODES, 8, Encoded(ITIS_CODES, rsaMask, seq(DESCRIPTIONS, _ => 0)), mask)
    ensures mask == Low(rsaMask, 8)
  {
    RoundTrip(ITIS_CODES, 8, rsaMask, seq(DESCRIPTIONS, _ => 0), mask);
  }
}
