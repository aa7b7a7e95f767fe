/** What the radiotap listing promises a caller: bounds, alignment, order. */
module RadiotapProperties {
  import opened Bits
  import opened Radiotap

  /** A registered alignment is zero (a gap) or a power of two. */
  ghost predicate PowerOfTwoAligned(vns: Vns)
  {
    forall ns | KnownNs(vns, ns) ::
      forall i | 0 <= i < |Table(vns, ns)| :: Table(vns, ns)[i].align in {0, 1, 2, 4, 8}
  }

  /** The alignment of a returned argument; a raw vendor block is 2-aligned. */
  function AlignOf(vns: Vns, f: Field): nat
    requires KnownNs(vns, f.ns) && (f.ns.Opaque? || f.index < |Table(vns, f.ns)|)
  {
    if f.ns.Opaque? then 2 else Table(vns, f.ns)[f.index].align
  }

  ghost predicate FieldOk(h: Header, f: Field)
  {
    && h.DataStart() <= f.off && f.off + f.size <= h.len
    && KnownNs(h.vns, f.ns)
    && if f.ns.Opaque? then f.index == VENDOR_NAMESPACE && f.size >= 6
       else f.index < |Table(h.vns, f.ns)| && f.size == Table(h.vns, f.ns)[f.index].size
  }

  ghost predicate FieldAligned(h: Header, f: Field)
    requires FieldOk(h, f)
  {
    AlignOf(h.vns, f) >= 1 && f.off % AlignOf(h.vns, f) == 0
  }

  ghost predicate CursorOk(h: Header, c: Cursor)
  {
    && KnownNs(h.vns, c.ns)
    && (c.arg.At? ==> h.DataStart() <= c.arg.off)
    && (c.next.At? ==> h.DataStart() <= c.next.off)
  }

  lemma AlignUpByTwo(off: nat)
    ensures AlignUp(off, 1) == off
    ensures AlignUp(off, 2) % 2 == 0 && AlignUp(off, 2) < off + 2
  {
    AndZero(off);
    AndOne(off);
    hide And;
  }

  lemma AlignUpByFour(off: nat)
    ensures AlignUp(off, 4) % 4 == 0 && AlignUp(off, 4) < off + 4
  {
    AndLowMask(off, 4);
    hide And;
  }

  lemma AlignUpByEight(off: nat)
    ensures AlignUp(off, 8) % 8 == 0 && AlignUp(off, 8) < off + 8
  {
    AndLowMask(off, 8);
    hide And;
  }

  lemma AlignUpAligned(off: nat, align: nat)
    requires align in {1, 2, 4, 8}
    ensures AlignUp(off, align) % align == 0 && AlignUp(off, align) < off + align
  {
    hide AlignUp;
    AlignUpByTwo(off);
    match align {
      case 8 => AlignUpByEight(off);
      case 4 => AlignUpByFour(off);
      case _ =>
    }
  }

  lemma PlaceOk(h: Header, c: Cursor, index: nat)
    requires h.len <= |h.buf| && CursorOk(h, c)
    ensures match Place(h, c, index)
            case Stop(_) => true
            case Silent(c') => CursorOk(h, c')
            case Give(f, c') => CursorOk(h, c') && FieldOk(h, f) && (PowerOfTwoAligned(h.vns) ==> FieldAligned(h, f))
  {
    hide And;
    if c.arg.At? {
      AlignUpAligned(c.arg.off, 2);
      if PowerOfTwoAligned(h.vns) && index < |Table(h.vns, c.ns)| && Table(h.vns, c.ns)[index].align != 0 {
        AlignUpAligned(c.arg.off, Table(h.vns, c.ns)[index].align);
      }
    }
  }

  /**
   * Every argument still to be returned begins at or after the presence words, ends inside the
   * stated length and, for power-of-two alignments, is aligned relative to the header start.
   */
  lemma {:induction false} RestInBounds(h: Header, c: Cursor, w: nat, b: nat)
    requires h.Wf() && w < h.words && b <= EXT && CursorOk(h, c)
    ensures forall f | f in Rest(h, c, w, b).fields ::
              FieldOk(h, f) && (PowerOfTwoAligned(h.vns) ==> FieldAligned(h, f))
    decreases h.words - w, EXT - b
  {
    hide Place, PowerOfTwoAligned, FieldOk, FieldAligned, Bit, Word;
    if !Present(h.buf, w, b) {
      if b < EXT {
        RestInBounds(h, c, w, b + 1);
      }
    } else {
      var p := Place(h, c, IndexBase(h.buf, w) + b);
      PlaceOk(h, c, IndexBase(h.buf, w) + b);
      if !p.Stop? {
        var c' := if p.Silent? then p.c else p.c';
        if b == EXT {
          RestInBounds(h, c', w + 1, 0);
        } else {
          RestInBounds(h, c', w, b + 1);
        }
      }
    }
  }

  lemma ContentsInBounds(h: Header)
    requires h.Wf()
    ensures forall f | f in Contents(h).fields ::
              FieldOk(h, f) && (PowerOfTwoAligned(h.vns) ==> FieldAligned(h, f))
  {
    RestInBounds(h, Cursor(At(h.DataStart()), Standard, Null), 0, 0);
  }

  /** The standard table itself is power-of-two aligned, so the driver's call needs no assumption. */
  lemma StandardAligned()
    ensures PowerOfTwoAligned(NoVns)
  {
  }

  /**
   * A null pointer fails every bound check of the C code: `(unsigned long)0 + d - header` wraps to
   * more than any 16-bit length. `word` is one more than the largest address.
   */
  lemma NullFailsBoundCheck(header: nat, d: nat, len: nat, word: nat)
    requires d < header && header + 0x1_0000 <= word && len < 0x1_0000
    ensures (d - header) % word > len
  {
    assert (d - header) % word == d - header + word;
  }
}
