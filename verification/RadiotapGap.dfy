/** The gap of the standard table is a real exception: a header whose fields overlap. */
module RadiotapGap {
  import opened Bits
  import opened Radiotap
  import opened RadiotapOrder

  /**
   * Four presence words: an opaque vendor block, back to the standard namespace, a one-byte field,
   * the gap and a namespace bit, and once more the one-byte field.
   */
  const OVERLAPPING: seq<Byte> := [
    0, 0, 27, 0,
    0, 0, 0, 0xC0,
    0, 0, 0, 0xA0,
    0x02, 0, 0x04, 0xA0,
    0x02, 0, 0, 0,
    0, 0, 0, 0, 0, 0,
    0]

  const HEADER := Header(OVERLAPPING, 27, 4, NoVns)

  lemma {:induction false} BitSplit(x: nat, y: nat, k: nat, b: nat)
    requires y < Pow2(k)
    ensures Bit(y + Pow2(k) * x, b) == if b < k then Bit(y, b) else Bit(x, b - k)
  {
    if k > 0 {
      var m := Pow2(k - 1) * x;
      assert Pow2(k) * x == 2 * m;
      assert (y + 2 * m) / 2 == y / 2 + m && (y + 2 * m) % 2 == y % 2;
      if b > 0 {
        BitSplit(x, y / 2, k - 1, b - 1);
      }
    }
  }

  /** The bits of a presence word, byte by byte. */
  lemma PresentInByte(buf: seq<Byte>, w: nat, b: nat)
    requires 8 + 4 * w <= |buf| && b < 32
    ensures Present(buf, w, b) == Bit(U8(buf, 4 + 4 * w + b / 8), b % 8)
  {
    var i := 4 + 4 * w;
    assert Pow2(8) == 0x100 by { assert Pow2(4) == 16; }
    var x3 := U8(buf, i + 3);
    var x2 := U8(buf, i + 2) + 0x100 * x3;
    var x1 := U8(buf, i + 1) + 0x100 * x2;
    assert Word(buf, w) == U8(buf, i) + 0x100 * x1;
    BitSplit(x1, U8(buf, i), 8, b);
    if b >= 8 {
      BitSplit(x2, U8(buf, i + 1), 8, b - 8);
    }
    if b >= 16 {
      BitSplit(x3, U8(buf, i + 2), 8, b - 16);
    }
  }

  /** The bytes that occur in the presence words. */
  lemma BitsOfBytes(r: nat)
    requires r < 8
    ensures !Bit(0, r) && (Bit(2, r) <==> r == 1) && (Bit(4, r) <==> r == 2)
    ensures (Bit(0xC0, r) <==> r == 6 || r == 7) && (Bit(0xA0, r) <==> r == 5 || r == 7)
  {
    match r {
      case 0 =>
      case 1 =>
      case 2 =>
      case 3 =>
      case 4 =>
      case 5 =>
      case 6 =>
      case _ =>
    }
  }

  /** The four bytes of presence word `w`, in the order of the header. */
  predicate HasBytes(buf: seq<Byte>, w: nat, b0: Byte, b1: Byte, b2: Byte, b3: Byte)
    requires 8 + 4 * w <= |buf|
  {
    var i := 4 + 4 * w;
    buf[i] == b0 && buf[i + 1] == b1 && buf[i + 2] == b2 && buf[i + 3] == b3
  }

  lemma BitsOf(buf: seq<Byte>, b: nat)
    requires b < 32 && |buf| >= 20
    requires HasBytes(buf, 0, 0, 0, 0, 0xC0) && HasBytes(buf, 1, 0, 0, 0, 0xA0)
    requires HasBytes(buf, 2, 2, 0, 4, 0xA0) && HasBytes(buf, 3, 2, 0, 0, 0)
    ensures Present(buf, 0, b) <==> b == 30 || b == 31
    ensures Present(buf, 1, b) <==> b == 29 || b == 31
    ensures Present(buf, 2, b) <==> b == 1 || b == 18 || b == 29 || b == 31
    ensures Present(buf, 3, b) <==> b == 1
  {
    PresentInByte(buf, 0, b);
    PresentInByte(buf, 1, b);
    PresentInByte(buf, 2, b);
    PresentInByte(buf, 3, b);
    BitsOfBytes(b % 8);
    hide Bit, Present;
  }

  /** Four presence words with these bits set, a 27-byte header, no registered namespaces. */
  ghost predicate Gapped(h: Header)
  {
    && h.Wf() && h.words == 4 && h.len == 27 && h.vns.NoVns?
    && (forall b | 0 <= b < 32 :: Present(h.buf, 0, b) <==> b == 30 || b == 31)
    && (forall b | 0 <= b < 32 :: Present(h.buf, 1, b) <==> b == 29 || b == 31)
    && (forall b | 0 <= b < 32 :: Present(h.buf, 2, b) <==> b == 1 || b == 18 || b == 29 || b == 31)
    && (forall b | 0 <= b < 32 :: Present(h.buf, 3, b) <==> b == 1)
    && Le16(h.buf, 24) == 0
  }

  lemma BytesMakeGapped(h: Header)
    requires |h.buf| == 27 == h.len && h.words == 4 && h.vns.NoVns? && Le16(h.buf, 24) == 0
    requires HasBytes(h.buf, 0, 0, 0, 0, 0xC0) && HasBytes(h.buf, 1, 0, 0, 0, 0xA0)
    requires HasBytes(h.buf, 2, 2, 0, 4, 0xA0) && HasBytes(h.buf, 3, 2, 0, 0, 0)
    ensures Gapped(h)
  {
    forall b | 0 <= b < 32
      ensures Present(h.buf, 0, b) <==> b == 30 || b == 31
      ensures Present(h.buf, 1, b) <==> b == 29 || b == 31
      ensures Present(h.buf, 2, b) <==> b == 1 || b == 18 || b == 29 || b == 31
      ensures Present(h.buf, 3, b) <==> b == 1
    {
      BitsOf(h.buf, b);
    }
    hide Present;
  }

  const START := Cursor(At(20), Standard, Null)
  const AFTER_BLOCK := Cursor(At(26), Opaque, At(26))
  const BACK := Cursor(At(26), Standard, At(26))
  const AT_END := Cursor(At(27), Standard, At(26))

  lemma Restarts(h: Header)
    requires Gapped(h)
    ensures forall w | 0 <= w < 4 :: IndexBase(h.buf, w) == 0
  {
    hide Present;
    assert Present(h.buf, 0, VENDOR_NAMESPACE) && Present(h.buf, 1, RADIOTAP_NAMESPACE);
    assert !Present(h.buf, 1, VENDOR_NAMESPACE) && Present(h.buf, 2, RADIOTAP_NAMESPACE) && Present(h.buf, 2, GAP);
    assert IndexBase(h.buf, 2) == 0;
  }

  /** Bits that are not set are stepped over. */
  lemma {:induction false} Skips(h: Header, c: Cursor, w: nat, b: nat, b': nat)
    requires h.Wf() && w < h.words && b <= b' <= EXT && KnownNs(h.vns, c.ns)
    requires forall k | b <= k < b' :: !Present(h.buf, w, k)
    ensures Rest(h, c, w, b) == Rest(h, c, w, b')
    decreases b' - b
  {
    hide Place, Present;
    if b < b' {
      Skips(h, c, w, b + 1, b');
    }
  }

  lemma Places(h: Header)
    requires Gapped(h)
    ensures Place(h, START, 30) == Give(Field(Opaque, VENDOR_NAMESPACE, 20, 6), AFTER_BLOCK)
    ensures Place(h, AFTER_BLOCK, 31) == Silent(AFTER_BLOCK) && Place(h, BACK, 31) == Silent(BACK)
    ensures Place(h, AFTER_BLOCK, 29) == Silent(BACK)
    ensures Place(h, BACK, 1) == Give(Field(Standard, 1, 26, 1), AT_END)
    ensures Place(h, AT_END, 18) == Silent(AFTER_BLOCK)
  {
    AndZero(26);
    AndOne(20);
    AndOne(26);
    hide And, Present;
  }

  lemma WordZero(h: Header)
    requires Gapped(h)
    ensures Contents(h) == Prepend(Field(Opaque, VENDOR_NAMESPACE, 20, 6), Rest(h, AFTER_BLOCK, 1, 0))
  {
    Places(h);
    Restarts(h);
    hide Place, Present, IndexBase;
    Skips(h, START, 0, 0, 30);
    assert Rest(h, AFTER_BLOCK, 0, 31) == Rest(h, AFTER_BLOCK, 1, 0);
    assert h.DataStart() == 20;
  }

  lemma WordOne(h: Header)
    requires Gapped(h)
    ensures Rest(h, AFTER_BLOCK, 1, 0) == Rest(h, BACK, 2, 0)
  {
    Places(h);
    Restarts(h);
    hide Place, Present, IndexBase;
    Skips(h, AFTER_BLOCK, 1, 0, 29);
    Skips(h, BACK, 1, 30, 31);
  }

  lemma WordTwo(h: Header)
    requires Gapped(h)
    ensures Rest(h, BACK, 2, 0) == Prepend(Field(Standard, 1, 26, 1), Rest(h, BACK, 3, 0))
  {
    Places(h);
    Restarts(h);
    hide Place, Present, IndexBase;
    Skips(h, BACK, 2, 0, 1);
    Skips(h, AT_END, 2, 2, 18);
    Skips(h, AFTER_BLOCK, 2, 19, 29);
    Skips(h, BACK, 2, 30, 31);
  }

  lemma WordThree(h: Header)
    requires Gapped(h)
    ensures Rest(h, BACK, 3, 0) == Listing([Field(Standard, 1, 26, 1)], ENOENT)
  {
    Places(h);
    Restarts(h);
    hide Place, Present, IndexBase;
    Skips(h, BACK, 3, 0, 1);
    Skips(h, AT_END, 3, 2, 31);
  }

  lemma GappedContents(h: Header)
    requires Gapped(h)
    ensures Contents(h).fields ==
            [Field(Opaque, VENDOR_NAMESPACE, 20, 6), Field(Standard, 1, 26, 1), Field(Standard, 1, 26, 1)]
    ensures !Disjoint(Contents(h).fields) && FallsBack(h.buf, h.words)
  {
    WordZero(h);
    WordOne(h);
    WordTwo(h);
    WordThree(h);
    hide Contents, Rest, FallsBack;
    var fields := Contents(h).fields;
    assert fields[1].off + fields[1].size > fields[2].off;
    if !FallsBack(h.buf, h.words) {
      ContentsOrdered(h);
    }
  }

  lemma BytesOverlap(h: Header)
    requires |h.buf| == 27 == h.len && h.words == 4 && h.vns.NoVns? && Le16(h.buf, 24) == 0
    requires HasBytes(h.buf, 0, 0, 0, 0, 0xC0) && HasBytes(h.buf, 1, 0, 0, 0, 0xA0)
    requires HasBytes(h.buf, 2, 2, 0, 4, 0xA0) && HasBytes(h.buf, 3, 2, 0, 0, 0)
    ensures h.Wf() && FallsBack(h.buf, h.words) && !Disjoint(Contents(h).fields)
  {
    BytesMakeGapped(h);
    GappedContents(h);
    hide HasBytes, Present, Contents, IndexBase, FallsBack;
  }

  /** The gap moves the argument pointer back to the end of an earlier block: a byte is listed twice. */
  lemma GapLetsFieldsOverlap()
    ensures HEADER.Wf() && HEADER.vns.NoVns? && FallsBack(HEADER.buf, HEADER.words)
    ensures !Disjoint(Contents(HEADER).fields)
  {
    BytesOverlap(HEADER);
    hide Present, Contents, IndexBase, FallsBack;
  }
}
