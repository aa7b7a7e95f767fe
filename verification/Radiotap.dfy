/**
 * The radiotap header format (drivers/vnet/wifi/radiotap.h): which fields a header carries and
 * where they lie. This is the reference the iterator is proved against; it has no shifter, no
 * hit flag and no current-argument state.
 */
module Radiotap {
  import opened Bits

  const RADIOTAP_NAMESPACE := 29
  const VENDOR_NAMESPACE := 30
  const EXT := 31

  /** The fixed part of a header: version, pad, 16-bit length, first presence word. */
  const FIXED_LEN := 8

  datatype Error = EINVAL | ENOENT

  datatype AlignSize = AlignSize(align: Nibble, size: Nibble)

  /** A namespace a caller may register. */
  datatype VendorNs = VendorNs(oui: nat, subns: nat, table: seq<AlignSize>)

  /** `vns` of the iterator: a null pointer or a list of registered namespaces. */
  datatype Vns = NoVns | Registered(ns: seq<VendorNs>)

  /** The namespace whose table describes the present bits 0..28. */
  datatype Namespace = Standard | Vendor(k: nat) | Opaque

  /** A pointer into the argument area, as its distance from the header's first byte. */
  datatype Ptr = Null | At(off: nat)

  /** Alignment and size of the standard fields; index 18 is a gap. */
  const STANDARD_TABLE: seq<AlignSize> := [
    AlignSize(8, 8), AlignSize(1, 1), AlignSize(1, 1), AlignSize(2, 4), AlignSize(2, 2),
    AlignSize(1, 1), AlignSize(1, 1), AlignSize(2, 2), AlignSize(2, 2), AlignSize(2, 2),
    AlignSize(1, 1), AlignSize(1, 1), AlignSize(1, 1), AlignSize(1, 1), AlignSize(2, 2),
    AlignSize(2, 2), AlignSize(1, 1), AlignSize(1, 1), AlignSize(0, 0), AlignSize(1, 3),
    AlignSize(4, 8)]

  const GAP := 18

  /** A header with its length field and the number of chained presence words. */
  datatype Header = Header(buf: seq<Byte>, len: nat, words: nat, vns: Vns) {

    ghost predicate Wf() {
      && |buf| >= FIXED_LEN
      && len <= |buf|
      && ChainEnds(buf, len, words)
    }

    /** The first byte after the presence words. */
    function DataStart(): nat { 4 + 4 * words }
  }

  /** Presence word `w`. */
  function Word(buf: seq<Byte>, w: nat): nat
    requires 8 + 4 * w <= |buf|
  {
    Le32(buf, 4 + 4 * w)
  }

  predicate Present(buf: seq<Byte>, w: nat, b: nat)
    requires 8 + 4 * w <= |buf|
  {
    Bit(Word(buf, w), b)
  }

  /**
   * Exactly the first `words` presence words are chained: each but the last has bit 31, the last
   * has not, and the extension words end inside the stated length.
   */
  ghost predicate ChainEnds(buf: seq<Byte>, len: nat, words: nat)
    requires |buf| >= FIXED_LEN && len <= |buf|
  {
    && words >= 1
    && (words > 1 ==> 4 + 4 * words <= len)
    && (forall w | 0 <= w < words - 1 :: Present(buf, w, EXT))
    && !Present(buf, words - 1, EXT)
  }

  ghost predicate Chained(buf: seq<Byte>, len: nat)
    requires |buf| >= FIXED_LEN && len <= |buf|
  {
    exists words: nat :: ChainEnds(buf, len, words)
  }

  /** What initialisation must accept. */
  ghost predicate Acceptable(buf: seq<Byte>, maxLength: int)
    requires maxLength <= |buf|
  {
    && maxLength >= FIXED_LEN
    && buf[0] == 0
    && Le16(buf, 2) <= maxLength
    && Chained(buf, Le16(buf, 2))
  }

  /** The field index of bit 0 of word `w`: it restarts after a word with a namespace bit. */
  function IndexBase(buf: seq<Byte>, w: nat): (r: nat)
    requires 8 + 4 * w <= |buf|
    ensures r % 32 == 0
  {
    if w == 0 then 0
    else if Present(buf, w - 1, RADIOTAP_NAMESPACE) || Present(buf, w - 1, VENDOR_NAMESPACE) then 0
    else IndexBase(buf, w - 1) + 32
  }

  lemma EntryBit(base: nat, b: nat)
    requires base % 32 == 0 && b <= EXT
    ensures (base + b) % 32 == b
  {
    assert base + b == 32 * (base / 32) + b;
  }

  /** The first registered namespace, from `i` on, with this OUI and sub-namespace. */
  function Lookup(vns: Vns, oui: nat, subns: nat, i: nat): (r: Namespace)
    ensures r == Opaque || (r.Vendor? && vns.Registered? && i <= r.k < |vns.ns|)
    decreases if vns.NoVns? then 0 else |vns.ns| - i
  {
    if vns.NoVns? || i >= |vns.ns| then Opaque
    else if vns.ns[i].oui == oui && vns.ns[i].subns == subns then Vendor(i)
    else Lookup(vns, oui, subns, i + 1)
  }

  /** `ns` is the first registered namespace with this OUI and sub-namespace, opaque if there is none. */
  ghost predicate FirstNs(vns: Vns, oui: nat, subns: nat, ns: Namespace)
  {
    match ns
    case Standard => false
    case Vendor(k) =>
      && vns.Registered? && k < |vns.ns| && vns.ns[k].oui == oui && vns.ns[k].subns == subns
      && forall i | 0 <= i < k :: vns.ns[i].oui != oui || vns.ns[i].subns != subns
    case Opaque => vns.Registered? ==> forall i | 0 <= i < |vns.ns| :: vns.ns[i].oui != oui || vns.ns[i].subns != subns
  }

  lemma LookupIs(vns: Vns, oui: nat, subns: nat, ns: Namespace)
    ensures FirstNs(vns, oui, subns, ns) <==> ns == Lookup(vns, oui, subns, 0)
  {
    LookupFrom(vns, oui, subns, 0);
    hide Lookup;
  }

  lemma {:induction false} LookupFrom(vns: Vns, oui: nat, subns: nat, i: nat)
    requires vns.Registered? ==> forall j | 0 <= j < i && j < |vns.ns| :: vns.ns[j].oui != oui || vns.ns[j].subns != subns
    ensures FirstNs(vns, oui, subns, Lookup(vns, oui, subns, i))
    decreases if vns.NoVns? then 0 else |vns.ns| - i
  {
    if vns.Registered? && i < |vns.ns| && !(vns.ns[i].oui == oui && vns.ns[i].subns == subns) {
      LookupFrom(vns, oui, subns, i + 1);
    }
  }

  predicate KnownNs(vns: Vns, ns: Namespace)
  {
    ns.Vendor? ==> vns.Registered? && ns.k < |vns.ns|
  }

  /** The table of a namespace; an opaque one has none. */
  function Table(vns: Vns, ns: Namespace): seq<AlignSize>
    requires KnownNs(vns, ns)
  {
    match ns
    case Standard => STANDARD_TABLE
    case Vendor(k) => vns.ns[k].table
    case Opaque => []
  }

  /** `off` moved up to the next multiple of `align`, as the masking code does it. */
  function AlignUp(off: nat, align: nat): (r: nat)
    requires align >= 1
    ensures off <= r
  {
    var pad := And(off, align - 1);
    if pad == 0 then off else off + (align - pad)
  }

  /** One returned argument; `ns` is the namespace it is to be read in. */
  datatype Field = Field(ns: Namespace, index: nat, off: nat, size: nat)

  /** Where the next argument would start, in which namespace, and where the block after it starts. */
  datatype Cursor = Cursor(arg: Ptr, ns: Namespace, next: Ptr)

  datatype Placed = Stop(err: Error) | Silent(c: Cursor) | Give(f: Field, c': Cursor)

  /** The argument of a present bit with the given field index. */
  function PlaceField(h: Header, c: Cursor, index: nat): Placed
    requires KnownNs(h.vns, c.ns)
  {
    var table := Table(h.vns, c.ns);
    if index >= |table| && c.ns.Standard? then Stop(ENOENT)
    else if index >= |table| || table[index].align == 0 then Silent(Cursor(c.next, Opaque, c.next))
    else if c.arg.Null? then Stop(EINVAL)
    else
      var off := AlignUp(c.arg.off, table[index].align);
      var end := off + table[index].size;
      if end > h.len then Stop(EINVAL)
      else Give(Field(c.ns, index, off, table[index].size), Cursor(At(end), c.ns, c.next))
  }

  function VendorOui(buf: seq<Byte>, off: nat): nat
    requires off + 3 <= |buf|
  {
    0x1_0000 * U8(buf, off) + 0x100 * U8(buf, off + 1) + U8(buf, off + 2)
  }

  /** A vendor namespace block: 3 bytes OUI, 1 byte sub-namespace, 2 bytes skip length. */
  function PlaceVendor(h: Header, c: Cursor): Placed
    requires h.len <= |h.buf|
  {
    if c.arg.Null? then Stop(EINVAL)
    else
      var off := AlignUp(c.arg.off, 2);
      if off + 6 > h.len then Stop(EINVAL)
      else
        var skip := Le16(h.buf, off + 4);
        var ns := Lookup(h.vns, VendorOui(h.buf, off), U8(h.buf, off + 3), 0);
        if !ns.Opaque? then Silent(Cursor(At(off + 6), ns, At(off + 6 + skip)))
        else if off + 6 + skip > h.len then Stop(EINVAL)
        else Give(Field(Opaque, VENDOR_NAMESPACE, off, 6 + skip),
                  Cursor(At(off + 6 + skip), Opaque, At(off + 6 + skip)))
  }

  /** A bit without data of its own: the arguments so far must lie inside the header. */
  function PlaceMark(h: Header, c: Cursor, ns: Namespace): Placed
  {
    if c.arg.Null? || c.arg.off > h.len then Stop(EINVAL) else Silent(c.(ns := ns))
  }

  /** What a present bit with this field index stands for; the last three bits of a word are marks. */
  function Place(h: Header, c: Cursor, index: nat): (p: Placed)
    requires h.len <= |h.buf| && KnownNs(h.vns, c.ns)
    ensures p.Give? ==> index % 32 < RADIOTAP_NAMESPACE || (index % 32 == VENDOR_NAMESPACE && p.c'.ns.Opaque?)
    ensures p.Silent? && index % 32 == RADIOTAP_NAMESPACE ==> p.c == c.(ns := Standard)
    ensures p.Silent? && index % 32 == VENDOR_NAMESPACE ==> !p.c.ns.Opaque?
    ensures p.Silent? ==> KnownNs(h.vns, p.c.ns)
    ensures p.Give? ==> KnownNs(h.vns, p.c'.ns)
  {
    if index % 32 == RADIOTAP_NAMESPACE then PlaceMark(h, c, Standard)
    else if index % 32 == VENDOR_NAMESPACE then PlaceVendor(h, c)
    else if index % 32 == EXT then PlaceMark(h, c, c.ns)
    else PlaceField(h, c, index)
  }

  /** The arguments of a header in order, and the error the walk ends with. */
  datatype Listing = Listing(fields: seq<Field>, err: Error)

  function Prepend(f: Field, l: Listing): Listing
  {
    Listing([f] + l.fields, l.err)
  }

  function Rest(h: Header, c: Cursor, w: nat, b: nat): Listing
    requires h.Wf() && w < h.words && b <= EXT && KnownNs(h.vns, c.ns)
    decreases h.words - w, EXT - b
  {
    if !Present(h.buf, w, b) then
      if b == EXT then Listing([], ENOENT) else Rest(h, c, w, b + 1)
    else
      match Place(h, c, IndexBase(h.buf, w) + b)
      case Stop(e) => Listing([], e)
      case Silent(c') => Onwards(h, c', w, b)
      case Give(f, c') => Prepend(f, Onwards(h, c', w, b))
  }

  /** Bit 31 of a word leads to bit 0 of the next. */
  function Onwards(h: Header, c: Cursor, w: nat, b: nat): Listing
    requires h.Wf() && w < h.words && b <= EXT && KnownNs(h.vns, c.ns)
    requires b == EXT ==> w + 1 < h.words
    decreases h.words - w, EXT - b, 0
  {
    if b == EXT then Rest(h, c, w + 1, 0) else Rest(h, c, w, b + 1)
  }

  /** What a present bit contributes. */
  lemma RestAtBit(h: Header, c: Cursor, w: nat, b: nat)
    requires h.Wf() && w < h.words && b <= EXT && KnownNs(h.vns, c.ns) && Present(h.buf, w, b)
    ensures b == EXT ==> w + 1 < h.words
    ensures var p := Place(h, c, IndexBase(h.buf, w) + b);
            && (p.Stop? ==> Rest(h, c, w, b) == Listing([], p.err))
            && (p.Silent? ==> Rest(h, c, w, b) == Onwards(h, p.c, w, b))
            && (p.Give? ==> Rest(h, c, w, b) == Prepend(p.f, Onwards(h, p.c', w, b)))
  {
    hide Present, Place, IndexBase, Onwards;
  }

  /** The whole header. */
  function Contents(h: Header): Listing
    requires h.Wf()
  {
    Rest(h, Cursor(At(h.DataStart()), Standard, Null), 0, 0)
  }
}
