/** What the listing of a header is, word by word and block by block, without the functions that define it. */
module RadiotapListing {
  import opened Bits
  import opened Radiotap
  import opened RadiotapProperties

  // ---- field indices

  predicate Switches(buf: seq<Byte>, w: nat)
    requires 8 + 4 * w <= |buf|
  {
    Present(buf, w, RADIOTAP_NAMESPACE) || Present(buf, w, VENDOR_NAMESPACE)
  }

  /** Indices count on from word to word, and from zero again behind a word that switches namespaces. */
  lemma {:induction false} IndexBaseFrom(buf: seq<Byte>, v: nat, w: nat)
    requires v <= w && 8 + 4 * w <= |buf| && (v == 0 || Switches(buf, v - 1))
    requires forall u | v <= u < w :: !Switches(buf, u)
    ensures IndexBase(buf, w) == 32 * (w - v)
  {
    hide Present;
    if v < w {
      assert !Switches(buf, w - 1);
      IndexBaseFrom(buf, v, w - 1);
    }
  }

  // ---- headers of the standard namespace only

  /** The smallest multiple of `align` from `off` on. */
  function RoundUp(off: nat, align: nat): nat
    requires align >= 1
  {
    if off % align == 0 then off else off + (align - off % align)
  }

  lemma AlignUpIs(off: nat, align: nat)
    requires align in {1, 2, 4, 8}
    ensures AlignUp(off, align) == RoundUp(off, align)
  {
    AndLowMask(off, align);
    hide And;
  }

  /** No word switches namespaces, and the gap is not present. */
  ghost predicate Plain(h: Header)
    requires h.Wf()
  {
    (forall w | 0 <= w < h.words :: !Switches(h.buf, w)) && !Present(h.buf, 0, GAP)
  }

  const FIELDS := 21

  /** `k` is the first field present in the first word from bit `b` on. */
  ghost predicate First(h: Header, b: nat, k: nat)
    requires |h.buf| >= FIXED_LEN
  {
    b <= k < FIELDS && Present(h.buf, 0, k) && forall j | b <= j < k :: !Present(h.buf, 0, j)
  }

  ghost predicate NoneLeft(h: Header, b: nat)
    requires |h.buf| >= FIXED_LEN
  {
    forall k | b <= k < FIELDS :: !Present(h.buf, 0, k)
  }

  /**
   * A listing holds exactly the fields present in the first word, in order and one behind the other
   * with the least padding, up to the first one that does not fit. Then the error says that; else it
   * says that there is nothing more, whatever later words announce.
   */
  ghost predicate Lists(h: Header, fields: seq<Field>, err: Error, b: nat, pos: nat)
    requires |h.buf| >= FIXED_LEN
    decreases |fields|
  {
    if fields == [] then
      || (NoneLeft(h, b) && err == ENOENT)
      || (err == EINVAL && exists k :: First(h, b, k) && k != GAP && EndOf(k, pos) > h.len)
    else
      var f := fields[0];
      && First(h, b, f.index) && f.index != GAP && EndOf(f.index, pos) <= h.len
      && f == Field(Standard, f.index, RoundUp(pos, STANDARD_TABLE[f.index].align), STANDARD_TABLE[f.index].size)
      && Lists(h, fields[1..], err, f.index + 1, EndOf(f.index, pos))
  }

  /** Where a field ends that is placed at or behind `pos`. */
  function EndOf(k: nat, pos: nat): (end: nat)
    requires k < FIELDS && k != GAP
    ensures end >= STANDARD_TABLE[k].size
  {
    StandardTable(k);
    RoundUp(pos, STANDARD_TABLE[k].align) + STANDARD_TABLE[k].size
  }

  function FieldTo(k: nat, end: int): Field
    requires k < FIELDS && k != GAP && end >= STANDARD_TABLE[k].size
  {
    Field(Standard, k, end - STANDARD_TABLE[k].size, STANDARD_TABLE[k].size)
  }

  lemma StandardTable(k: nat)
    requires k < FIELDS && k != GAP
    ensures |STANDARD_TABLE| == FIELDS && STANDARD_TABLE[k].align in {1, 2, 4, 8}
  {
  }

  /** Behind the last field nothing is returned. */
  lemma {:induction false} RestEnds(h: Header, c: Cursor, w: nat, b: nat)
    requires h.Wf() && Plain(h) && w < h.words && b <= EXT && (w > 0 || b >= FIELDS)
    requires c.ns.Standard? && c.arg.At? && (h.words > 1 ==> c.arg.off <= h.len)
    ensures Rest(h, c, w, b) == Listing([], ENOENT)
    decreases h.words - w, EXT - b
  {
    if !Present(h.buf, w, b) {
      hide Present, Place, IndexBase, Plain;
      if b < EXT {
        RestEnds(h, c, w, b + 1);
      }
    } else {
      IndexBaseFrom(h.buf, 0, w);
      EntryBit(IndexBase(h.buf, w), b);
      assert !Switches(h.buf, w);
      RestAtBit(h, c, w, b);
      hide Present, IndexBase, Rest, Plain, ChainEnds;
      if b == EXT {
        RestEnds(h, c, w + 1, 0);
      }
    }
  }

  lemma PlacesField(h: Header, c: Cursor, k: nat)
    requires h.len <= |h.buf| && c.ns.Standard? && c.arg.At? && k < FIELDS && k != GAP
    ensures var end := EndOf(k, c.arg.off);
            Place(h, c, k) ==
            if end > h.len then Stop(EINVAL)
            else Give(FieldTo(k, end), Cursor(At(end), Standard, c.next))
  {
    StandardTable(k);
    AlignUpIs(c.arg.off, STANDARD_TABLE[k].align);
    hide AlignUp, RoundUp;
  }

  lemma FieldRest(h: Header, c: Cursor, k: nat)
    requires h.Wf() && c.ns.Standard? && c.arg.At? && k < FIELDS && k != GAP && Present(h.buf, 0, k)
    ensures var end := EndOf(k, c.arg.off);
            Rest(h, c, 0, k) ==
            if end > h.len then Listing([], EINVAL)
            else Prepend(FieldTo(k, end), Rest(h, Cursor(At(end), Standard, c.next), 0, k + 1))
  {
    assert IndexBase(h.buf, 0) == 0;
    hide Present, Place, Rest, EndOf, IndexBase, ChainEnds, FieldTo, Prepend;
    RestAtBit(h, c, 0, k);
    PlacesField(h, c, k);
  }

  lemma {:induction false} RestLists(h: Header, c: Cursor, b: nat, k: nat)
    requires h.Wf() && Plain(h) && b <= k <= FIELDS && forall j | b <= j < k :: !Present(h.buf, 0, j)
    requires c.ns.Standard? && c.arg.At? && (h.words > 1 ==> c.arg.off <= h.len)
    ensures Lists(h, Rest(h, c, 0, k).fields, Rest(h, c, 0, k).err, b, c.arg.off)
    decreases FIELDS - k
  {
    hide Present, IndexBase, Place;
    if k == FIELDS {
      RestEnds(h, c, 0, k);
    } else if !Present(h.buf, 0, k) {
      RestLists(h, c, b, k + 1);
    } else {
      FieldLists(h, c, b, k);
    }
  }

  lemma FieldLists(h: Header, c: Cursor, b: nat, k: nat)
    requires h.Wf() && Plain(h) && First(h, b, k)
    requires c.ns.Standard? && c.arg.At? && (h.words > 1 ==> c.arg.off <= h.len)
    ensures Lists(h, Rest(h, c, 0, k).fields, Rest(h, c, 0, k).err, b, c.arg.off)
    decreases FIELDS - k, 0
  {
    FieldRest(h, c, k);
    hide Present, Rest, EndOf, RoundUp, Lists, ChainEnds, FieldTo;
    var end := EndOf(k, c.arg.off);
    if end <= h.len {
      RestLists(h, Cursor(At(end), Standard, c.next), k + 1, k + 1);
    }
    Unfolds(h, Rest(h, c, 0, k).fields, Rest(h, c, 0, k).err, b, c.arg.off, k);
  }

  lemma Unfolds(h: Header, fields: seq<Field>, err: Error, b: nat, pos: nat, k: nat)
    requires |h.buf| >= FIXED_LEN && First(h, b, k) && k != GAP
    requires if EndOf(k, pos) > h.len then fields == [] && err == EINVAL
             else && |fields| > 0 && Lists(h, fields[1..], err, k + 1, EndOf(k, pos))
                  && fields[0] == FieldTo(k, EndOf(k, pos))
    ensures Lists(h, fields, err, b, pos)
  {
    hide Present, RoundUp;
  }

  /** The listing of a header without namespace bits and without the gap, exactly. */
  lemma PlainContents(h: Header)
    requires h.Wf() && Plain(h)
    ensures Lists(h, Contents(h).fields, Contents(h).err, 0, h.DataStart())
  {
    hide Present;
    RestLists(h, Cursor(At(h.DataStart()), Standard, Null), 0, 0);
  }

  // ---- vendor blocks

  /**
   * A vendor block in the bytes of the header. A registered one leads into its namespace right behind
   * its six bytes; any other is returned whole, with the data it says to skip.
   */
  lemma VendorBlockIs(h: Header, c: Cursor, ns: Namespace)
    requires h.len <= |h.buf| && KnownNs(h.vns, c.ns) && c.arg.At? && RoundUp(c.arg.off, 2) + 6 <= h.len
    requires var s := h.buf[RoundUp(c.arg.off, 2)..];
             FirstNs(h.vns, s[0] as int * 0x1_0000 + s[1] as int * 0x100 + s[2] as int, s[3], ns)
    ensures var off := RoundUp(c.arg.off, 2);
            var end := off + 6 + h.buf[off + 4] as int + h.buf[off + 5] as int * 0x100;
            Place(h, c, VENDOR_NAMESPACE) ==
            if ns.Vendor? then Silent(Cursor(At(off + 6), ns, At(end)))
            else if end > h.len then Stop(EINVAL)
            else Give(Field(Opaque, VENDOR_NAMESPACE, off, end - off), Cursor(At(end), Opaque, At(end)))
  {
    AlignUpIs(c.arg.off, 2);
    var off := RoundUp(c.arg.off, 2);
    LookupIs(h.vns, VendorOui(h.buf, off), U8(h.buf, off + 3), ns);
    hide AlignUp, RoundUp, Lookup, FirstNs;
  }

  /** A bit that a registered namespace's table does not cover returns nothing and leads behind its block. */
  lemma UncoveredBit(h: Header, c: Cursor, index: nat)
    requires h.len <= |h.buf| && KnownNs(h.vns, c.ns) && c.ns.Vendor? && index % 32 < RADIOTAP_NAMESPACE
    requires var table := h.vns.ns[c.ns.k].table; index >= |table| || table[index].align == 0
    ensures Place(h, c, index) == Silent(Cursor(c.next, Opaque, c.next))
  {
  }
}
