/**
 * When the fields of a header are disjoint and in order, as a property of its presence words: for
 * walks without registered namespaces.
 */
module RadiotapOrder {
  import opened Bits
  import opened Radiotap
  import opened RadiotapProperties

  ghost predicate Disjoint(fs: seq<Field>)
  {
    && (forall f | f in fs :: f.size > 0)
    && (forall i, j | 0 <= i < j < |fs| :: fs[i].off + fs[i].size <= fs[j].off)
  }

  ghost predicate From(fs: seq<Field>, off: nat)
  {
    forall f | f in fs :: off <= f.off
  }

  /**
   * What the bits so far amount to. `Fresh`: standard fields, no vendor block yet. `Lost`: the gap
   * without a vendor block before it. `Block`: inside or right behind a vendor block. `Back`: the
   * standard namespace again, no field returned yet. `Past`: standard fields returned behind the
   * block. `Fallen`: then the gap, which leads back to the end of the block. `Again`: the standard
   * namespace after that. `Overlap`: an argument returned after that. `Ended`: nothing can follow.
   */
  datatype Mode = Fresh | Lost | Block | Back | Past | Fallen | Again | Overlap | Ended

  predicate Final(m: Mode)
  {
    m.Overlap? || m.Ended?
  }

  function AfterBit(m: Mode, index: nat): Mode
  {
    AfterEntry(m, index, index % 32)
  }

  function AfterEntry(m: Mode, index: nat, entry: nat): Mode
  {
    if Final(m) then m
    else if entry == VENDOR_NAMESPACE then
      match m case Fallen => Overlap case Again => Overlap case Lost => Ended case _ => Block
    else if entry == RADIOTAP_NAMESPACE then
      match m case Block => Back case Fallen => Again case Lost => Ended case _ => m
    else if entry == EXT then
      if m.Lost? then Ended else m
    else if m.Lost? || m.Block? || m.Fallen? then m
    else if index >= |STANDARD_TABLE| then Ended
    else if index == GAP then
      match m case Fresh => Lost case Back => Block case _ => Fallen
    else
      match m case Fresh => Fresh case Again => Overlap case _ => Past
  }

  /** The presence words from bit `b` of word `w` on; the data of the header plays no part. */
  function Course(buf: seq<Byte>, words: nat, m: Mode, w: nat, b: nat): Mode
    requires w < words && 4 + 4 * words <= |buf| && b <= EXT
    decreases words - w, EXT - b
  {
    if Final(m) then m
    else
      var m' := if Present(buf, w, b) then AfterBit(m, IndexBase(buf, w) + b) else m;
      if b < EXT then Course(buf, words, m', w, b + 1)
      else if w + 1 < words && Present(buf, w, b) then Course(buf, words, m', w + 1, 0)
      else m'
  }

  /**
   * A vendor block, then a returned standard field, then the gap in force, then another argument
   * that is reached.
   */
  predicate FallsBack(buf: seq<Byte>, words: nat)
    requires words >= 1 && 4 + 4 * words <= |buf|
  {
    Course(buf, words, Fresh, 0, 0).Overlap?
  }

  // ---- without the pattern the fields are in order

  lemma StandardGap(i: nat)
    requires i < |STANDARD_TABLE|
    ensures STANDARD_TABLE[i].align == 0 <==> i == GAP
    ensures i != GAP ==> STANDARD_TABLE[i].align in {1, 2, 4, 8} && 0 < STANDARD_TABLE[i].size <= 12
  {
  }

  /** The cursor of a walk in this mode; everything returned so far ends at or before `end`. */
  ghost predicate Tracks(m: Mode, c: Cursor, end: nat)
  {
    match m
    case Fresh => c.ns.Standard? && c.arg.At? && c.next.Null? && end <= c.arg.off
    case Lost => c.ns.Opaque? && c.arg.Null? && c.next.Null?
    case Block => c.ns.Opaque? && c.arg.At? && c.next == c.arg && end <= c.arg.off
    case Back => c.ns.Standard? && c.arg.At? && c.next == c.arg && end <= c.arg.off
    case Past => c.ns.Standard? && c.arg.At? && c.next.At? && end <= c.arg.off
    case Fallen => c.ns.Opaque? && c.arg.At? && c.next == c.arg
    case Again => c.ns.Standard? && c.arg.At? && c.next == c.arg
    case _ => true
  }

  lemma BitTracks(h: Header, c: Cursor, m: Mode, index: nat, end: nat)
    requires h.len <= |h.buf| && h.vns.NoVns? && !Final(m) && Tracks(m, c, end)
    ensures KnownNs(h.vns, c.ns)
    ensures var m' := AfterBit(m, index);
            match Place(h, c, index)
            case Stop(_) => true
            case Silent(c') => !Final(m') && Tracks(m', c', end)
            case Give(f, c') =>
              m'.Overlap? || (!Final(m') && f.size > 0 && end <= f.off && Tracks(m', c', f.off + f.size))
  {
    hide And;
    if index < |STANDARD_TABLE| {
      StandardGap(index);
    }
  }

  lemma {:induction false} RestOrdered(h: Header, c: Cursor, m: Mode, w: nat, b: nat, end: nat)
    requires h.Wf() && w < h.words && b <= EXT && h.vns.NoVns? && !Final(m) && Tracks(m, c, end)
    requires 4 + 4 * h.words <= |h.buf| && !Course(h.buf, h.words, m, w, b).Overlap?
    ensures KnownNs(h.vns, c.ns)
    ensures Disjoint(Rest(h, c, w, b).fields) && From(Rest(h, c, w, b).fields, end)
    decreases h.words - w, EXT - b
  {
    hide Present, Place, IndexBase, AfterBit, Tracks;
    assert KnownNs(h.vns, c.ns) by { BitTracks(h, c, m, 0, end); }
    if !Present(h.buf, w, b) {
      if b < EXT {
        RestOrdered(h, c, m, w, b + 1, end);
      }
    } else {
      var index := IndexBase(h.buf, w) + b;
      var m' := AfterBit(m, index);
      BitTracks(h, c, m, index, end);
      match Place(h, c, index)
      case Stop(_) =>
      case Silent(c') =>
        OnwardsOrdered(h, c', m', w, b, end);
      case Give(f, c') =>
        OnwardsOrdered(h, c', m', w, b, f.off + f.size);
        assert Rest(h, c, w, b) == Prepend(f, Onwards(h, c', w, b));
        PrependOrdered(f, Onwards(h, c', w, b), end);
    }
  }

  lemma OnwardsOrdered(h: Header, c: Cursor, m: Mode, w: nat, b: nat, end: nat)
    requires h.Wf() && w < h.words && b <= EXT && h.vns.NoVns? && Present(h.buf, w, b)
    requires 4 + 4 * h.words <= |h.buf| && !Final(m) && Tracks(m, c, end)
    requires b < EXT ==> !Course(h.buf, h.words, m, w, b + 1).Overlap?
    requires b == EXT ==> w + 1 < h.words ==> !Course(h.buf, h.words, m, w + 1, 0).Overlap?
    ensures KnownNs(h.vns, c.ns) && (b == EXT ==> w + 1 < h.words)
    ensures Disjoint(Onwards(h, c, w, b).fields) && From(Onwards(h, c, w, b).fields, end)
    decreases h.words - w, EXT - b, 0
  {
    hide Present, Course, Tracks, Rest;
    if b < EXT {
      RestOrdered(h, c, m, w, b + 1, end);
    } else {
      RestOrdered(h, c, m, w + 1, 0, end);
    }
  }

  lemma PrependOrdered(f: Field, l: Listing, end: nat)
    requires Disjoint(l.fields) && From(l.fields, f.off + f.size) && f.size > 0 && end <= f.off
    ensures Disjoint(Prepend(f, l).fields) && From(Prepend(f, l).fields, end)
  {
    var fs := Prepend(f, l).fields;
    forall i, j | 0 <= i < j < |fs|
      ensures fs[i].off + fs[i].size <= fs[j].off
    {
      assert fs[j] == l.fields[j - 1];
      if i > 0 {
        assert fs[i] == l.fields[i - 1];
      }
    }
  }

  /** Without registered namespaces, fields are disjoint and in increasing order unless the walk falls back. */
  lemma ContentsOrdered(h: Header)
    requires h.Wf() && h.vns.NoVns? && !FallsBack(h.buf, h.words)
    ensures Disjoint(Contents(h).fields)
  {
    RestOrdered(h, Cursor(At(h.DataStart()), Standard, Null), Fresh, 0, 0, 0);
  }

  // ---- with the pattern, some header with the same presence words has overlapping fields

  /** Bytes that make every vendor block among them end at a multiple of 8. */
  function Filler(i: nat): Byte
  {
    if i % 2 == 0 then 6 - i % 8 else 0
  }

  const LONGEST := 0xFFFF

  /** The longest header with the presence words of `h`. */
  function Stretched(h: Header): (r: Header)
    requires h.words >= 1 && 4 + 4 * h.words <= |h.buf| && 4 + 4 * h.words <= LONGEST
    ensures |r.buf| == LONGEST == r.len && r.words == h.words && r.vns == NoVns
  {
    var start := 4 + 4 * h.words;
    Header([0, 0, 0xFF, 0xFF] + h.buf[4..start] + seq<Byte>(LONGEST - start, (i: nat) => Filler(start + i)),
           LONGEST, h.words, NoVns)
  }

  ghost predicate SameWords(h: Header, h': Header)
    requires h.Wf() && h'.Wf()
  {
    h'.words == h.words && h'.buf[4..h.DataStart()] == h.buf[4..h.DataStart()]
  }

  lemma SamePresent(buf: seq<Byte>, buf': seq<Byte>, words: nat, w: nat, b: nat)
    requires w < words && 4 + 4 * words <= |buf| && 4 + 4 * words <= |buf'|
    requires buf'[4..4 + 4 * words] == buf[4..4 + 4 * words]
    ensures Present(buf', w, b) == Present(buf, w, b)
  {
    assert forall i {:trigger buf[i]} | 4 <= i < 4 + 4 * words :: buf'[4..4 + 4 * words][i - 4] == buf[4..4 + 4 * words][i - 4];
    assert forall i {:trigger buf[i]} | 4 <= i < 4 + 4 * words :: buf'[i] == buf[i];
    assert Word(buf', w) == Word(buf, w);
    hide Bit;
  }

  lemma {:induction false} SameBase(buf: seq<Byte>, buf': seq<Byte>, words: nat, w: nat)
    requires w < words && 4 + 4 * words <= |buf| && 4 + 4 * words <= |buf'|
    requires buf'[4..4 + 4 * words] == buf[4..4 + 4 * words]
    ensures IndexBase(buf', w) == IndexBase(buf, w)
  {
    if w > 0 {
      SamePresent(buf, buf', words, w - 1, RADIOTAP_NAMESPACE);
      SamePresent(buf, buf', words, w - 1, VENDOR_NAMESPACE);
      SameBase(buf, buf', words, w - 1);
    }
    hide Present;
  }

  lemma CourseAtBit(buf: seq<Byte>, words: nat, m: Mode, w: nat, b: nat)
    requires w < words && 4 + 4 * words <= |buf| && b <= EXT && !Final(m)
    ensures Course(buf, words, m, w, b) ==
            var m' := if Present(buf, w, b) then AfterBit(m, IndexBase(buf, w) + b) else m;
            if b < EXT then Course(buf, words, m', w, b + 1)
            else if w + 1 < words && Present(buf, w, b) then Course(buf, words, m', w + 1, 0)
            else m'
  {
    hide Present, IndexBase, AfterBit, Final;
  }

  /** The course depends on the presence words only. */
  lemma {:induction false} SameCourse(buf: seq<Byte>, buf': seq<Byte>, words: nat, m: Mode, w: nat, b: nat)
    requires w < words && 4 + 4 * words <= |buf| && 4 + 4 * words <= |buf'| && b <= EXT
    requires buf'[4..4 + 4 * words] == buf[4..4 + 4 * words]
    ensures Course(buf', words, m, w, b) == Course(buf, words, m, w, b)
    decreases words - w, EXT - b
  {
    if !Final(m) {
      hide Course, Present, IndexBase, AfterBit, Final;
      CourseAtBit(buf, words, m, w, b);
      CourseAtBit(buf', words, m, w, b);
      SamePresent(buf, buf', words, w, b);
      SameBase(buf, buf', words, w);
      var m' := if Present(buf, w, b) then AfterBit(m, IndexBase(buf, w) + b) else m;
      if b < EXT {
        SameCourse(buf, buf', words, m', w, b + 1);
      } else if w + 1 < words && Present(buf, w, b) {
        SameCourse(buf, buf', words, m', w + 1, 0);
      }
    }
  }

  lemma StretchedIsWellFormed(h: Header)
    requires h.Wf() && h.DataStart() <= LONGEST
    ensures Stretched(h).Wf() && SameWords(h, Stretched(h)) && Filled(Stretched(h))
  {
    var h' := Stretched(h);
    assert h'.buf[4..h.DataStart()] == h.buf[4..h.DataStart()];
    forall w | 0 <= w < h.words
      ensures Present(h'.buf, w, EXT) == Present(h.buf, w, EXT)
    {
      SamePresent(h.buf, h'.buf, h.words, w, EXT);
    }
    hide Present;
  }

  /** A longest header with filler behind its presence words. */
  ghost predicate Filled(h: Header)
  {
    && |h.buf| == LONGEST == h.len && h.vns.NoVns?
    && forall i | h.DataStart() <= i < LONGEST :: h.buf[i] == Filler(i)
  }

  /** The cursor of a walk over filler; `end` is the end of a field returned behind the last block. */
  ghost predicate Leads(m: Mode, c: Cursor, end: nat)
  {
    && Tracks(m, c, 0)
    && (c.next.At? ==> c.next.off % 8 == 0)
    && (m.Past? ==> c.next.off <= c.arg.off)
    && (m.Past? || m.Fallen? || m.Again? ==> c.next.off < end)
  }

  ghost predicate Within(h: Header, c: Cursor, limit: nat)
  {
    && (c.arg.At? ==> h.DataStart() <= c.arg.off <= limit)
    && (c.next.At? ==> h.DataStart() <= c.next.off <= limit)
  }

  lemma AlignedStays(off: nat, align: nat)
    requires align in {1, 2, 4, 8}
    ensures off % 8 == 0 ==> AlignUp(off, align) == off
    ensures off <= AlignUp(off, align) < off + 8 && AlignUp(off, align) % align == 0
  {
    AlignUpAligned(off, align);
    AndLowMask(off, align);
    hide And;
    match align {
      case 1 =>
      case 2 =>
      case 4 =>
      case _ =>
    }
  }

  /** The most a present bit can move the argument pointer: padding, and a field or a block over filler. */
  const STRIDE := 20

  lemma FieldLeads(h: Header, c: Cursor, m: Mode, index: nat, end: nat, limit: nat)
    requires Filled(h) && Leads(m, c, end) && Within(h, c, limit) && limit + STRIDE <= LONGEST
    requires m in {Fresh, Back, Past, Again} && index < |STANDARD_TABLE| && index != GAP
    ensures KnownNs(h.vns, c.ns) && PlaceField(h, c, index).Give?
    ensures var f, c', m' := PlaceField(h, c, index).f, PlaceField(h, c, index).c', AfterBit(m, index);
            if m'.Overlap? then f.off < end else Leads(m', c', f.off + f.size) && Within(h, c', limit + STRIDE)
  {
    StandardGap(index);
    var entry := STANDARD_TABLE[index];
    AlignedStays(c.arg.off, entry.align);
    hide AlignUp;
    match m
    case Fresh =>
    case Back =>
    case Past =>
    case _ =>
  }

  lemma BlockLeads(h: Header, c: Cursor, m: Mode, index: nat, end: nat, limit: nat)
    requires Filled(h) && Leads(m, c, end) && Within(h, c, limit) && limit + STRIDE <= LONGEST
    requires m in {Fresh, Block, Back, Past, Fallen, Again} && index % 32 == VENDOR_NAMESPACE
    ensures KnownNs(h.vns, c.ns) && PlaceVendor(h, c).Give?
    ensures var f, c', m' := PlaceVendor(h, c).f, PlaceVendor(h, c).c', AfterBit(m, index);
            if m'.Overlap? then f.off < end else Leads(m', c', f.off + f.size) && Within(h, c', limit + STRIDE)
  {
    AlignedStays(c.arg.off, 2);
    hide AlignUp;
    var off := AlignUp(c.arg.off, 2);
    BlockOverFiller(h, off);
    hide Le16;
  }

  lemma BlockOverFiller(h: Header, off: nat)
    requires Filled(h) && h.DataStart() <= off && off + 6 <= LONGEST && off % 2 == 0
    ensures Le16(h.buf, off + 4) <= 6 && (off + 6 + Le16(h.buf, off + 4)) % 8 == 0
  {
    assert h.buf[off + 4] == Filler(off + 4) && h.buf[off + 5] == Filler(off + 5);
    FillerPads(off);
    hide Filler;
  }

  lemma FillerPads(off: nat)
    requires off % 2 == 0
    ensures Filler(off + 5) == 0 && Filler(off + 4) <= 6 && (off + 6 + Filler(off + 4)) % 8 == 0
  {
    var q, k := off / 2 / 4, off / 2 % 4;
    assert off + 4 == 8 * q + 2 * k + 4;
    match k {
      case 0 =>
      case 1 =>
      case 2 => assert off + 4 == 8 * (q + 1);
      case _ => assert off + 4 == 8 * (q + 1) + 2;
    }
  }

  /** A present bit over filler: nothing stops the walk, and what overlaps does so below `end`. */
  lemma BitLeads(h: Header, c: Cursor, m: Mode, index: nat, end: nat, limit: nat)
    requires Filled(h) && Leads(m, c, end) && Within(h, c, limit) && limit + STRIDE <= LONGEST
    requires !Final(m) && !m.Lost? && AfterBit(m, index) !in {Lost, Ended}
    ensures KnownNs(h.vns, c.ns)
    ensures var m' := AfterBit(m, index);
            match Place(h, c, index)
            case Stop(_) => false
            case Silent(c') => !m'.Overlap? && Leads(m', c', end) && Within(h, c', limit + STRIDE)
                               && (Outstanding(m') ==> Outstanding(m))
            case Give(f, c') =>
              if m'.Overlap? then Outstanding(m) && f.off < end
              else Leads(m', c', f.off + f.size) && Within(h, c', limit + STRIDE)
  {
    if index % 32 == VENDOR_NAMESPACE {
      BlockLeads(h, c, m, index, end, limit);
      hide PlaceVendor;
    } else if index % 32 < RADIOTAP_NAMESPACE && index < |STANDARD_TABLE| && index != GAP && m in {Fresh, Back, Past, Again} {
      FieldLeads(h, c, m, index, end, limit);
      hide PlaceField;
    } else {
      if index == GAP {
        StandardGap(index);
      }
      hide PlaceVendor;
    }
  }

  /** A field behind the last block was returned, and the walk may come back to the end of that block. */
  predicate Outstanding(m: Mode)
  {
    m.Past? || m.Fallen? || m.Again?
  }

  lemma {:induction false} LostEnds(buf: seq<Byte>, words: nat, m: Mode, w: nat, b: nat)
    requires w < words && 4 + 4 * words <= |buf| && b <= EXT && m in {Lost, Ended}
    ensures !Course(buf, words, m, w, b).Overlap?
    decreases words - w, EXT - b
  {
    hide Present, IndexBase;
    if m.Lost? {
      var m' := if Present(buf, w, b) then AfterBit(m, IndexBase(buf, w) + b) else m;
      if b < EXT {
        LostEnds(buf, words, m', w, b + 1);
      } else if w + 1 < words && Present(buf, w, b) {
        LostEnds(buf, words, m', w + 1, 0);
      }
    }
  }

  /** The pointers after this many bits. */
  function Limit(h: Header, w: nat, b: nat): nat
  {
    h.DataStart() + STRIDE * (32 * w + b)
  }

  ghost predicate Overlapping(m: Mode, fs: seq<Field>, end: nat)
  {
    !Disjoint(fs) || (Outstanding(m) && exists f :: f in fs && f.off < end)
  }

  lemma {:induction false} RestOverlaps(h: Header, c: Cursor, m: Mode, w: nat, b: nat, end: nat)
    requires h.Wf() && w < h.words && b <= EXT && Filled(h) && Leads(m, c, end) && Within(h, c, Limit(h, w, b))
    requires 4 + 4 * h.words <= LONGEST && Limit(h, h.words, 0) <= LONGEST && !Final(m)
    requires Course(h.buf, h.words, m, w, b).Overlap?
    ensures KnownNs(h.vns, c.ns) && Overlapping(m, Rest(h, c, w, b).fields, end)
    decreases h.words - w, EXT - b, 2
  {
    if m.Lost? {
      LostEnds(h.buf, h.words, m, w, b);
    } else {
      hide Present, Place, IndexBase, AfterBit, Leads, Filled, Overlapping;
      assert KnownNs(h.vns, c.ns) by { assert Leads(m, c, end); }
      if !Present(h.buf, w, b) {
        assert b < EXT;
        RestOverlaps(h, c, m, w, b + 1, end);
      } else {
        PresentOverlaps(h, c, m, w, b, end);
      }
    }
  }

  lemma LimitSteps(h: Header, w: nat, b: nat)
    requires w < h.words && b <= EXT
    ensures Limit(h, w, b) + STRIDE == if b < EXT then Limit(h, w, b + 1) else Limit(h, w + 1, 0)
    ensures Limit(h, w, b) + STRIDE <= Limit(h, h.words, 0)
  {
  }

  lemma PresentOverlaps(h: Header, c: Cursor, m: Mode, w: nat, b: nat, end: nat)
    requires h.Wf() && w < h.words && b <= EXT && Filled(h) && Leads(m, c, end) && Within(h, c, Limit(h, w, b))
    requires 4 + 4 * h.words <= LONGEST && Limit(h, h.words, 0) <= LONGEST && !Final(m) && !m.Lost?
    requires Course(h.buf, h.words, m, w, b).Overlap? && Present(h.buf, w, b)
    ensures KnownNs(h.vns, c.ns) && Overlapping(m, Rest(h, c, w, b).fields, end)
    decreases h.words - w, EXT - b, 1
  {
    hide Present, Place, IndexBase, AfterBit, Leads, Filled, Overlapping, Limit, Within, Onwards, Rest, Course,
         Prepend, Outstanding;
    var index := IndexBase(h.buf, w) + b;
    var m' := AfterBit(m, index);
    CourseAfterBit(h, m, w, b);
    LimitSteps(h, w, b);
    BitLeads(h, c, m, index, end, Limit(h, w, b));
    RestAtBit(h, c, w, b);
    var p := Place(h, c, index);
    if p.Silent? {
      OnwardsOverlaps(h, p.c, m', w, b, end);
      StillOverlapping(m', m, Onwards(h, p.c, w, b).fields, end);
    } else if m'.Overlap? {
      GivenOverlaps(m, p.f, Onwards(h, p.c', w, b), end);
    } else {
      OnwardsOverlaps(h, p.c', m', w, b, p.f.off + p.f.size);
      PrependOverlaps(m', m, p.f, Onwards(h, p.c', w, b), end);
    }
  }

  lemma CourseAfterBit(h: Header, m: Mode, w: nat, b: nat)
    requires h.Wf() && w < h.words && b <= EXT && !Final(m) && Present(h.buf, w, b)
    requires Course(h.buf, h.words, m, w, b).Overlap?
    ensures b == EXT ==> w + 1 < h.words
    ensures var m' := AfterBit(m, IndexBase(h.buf, w) + b);
            m' !in {Lost, Ended} &&
            if b < EXT then Course(h.buf, h.words, m', w, b + 1).Overlap? else Course(h.buf, h.words, m', w + 1, 0).Overlap?
  {
    hide Present, IndexBase, AfterBit;
    var m' := AfterBit(m, IndexBase(h.buf, w) + b);
    if m' in {Lost, Ended} {
      if b < EXT {
        LostEnds(h.buf, h.words, m', w, b + 1);
      } else if w + 1 < h.words {
        LostEnds(h.buf, h.words, m', w + 1, 0);
      }
    }
  }

  lemma OnwardsOverlaps(h: Header, c: Cursor, m: Mode, w: nat, b: nat, end: nat)
    requires h.Wf() && w < h.words && b <= EXT && Filled(h) && Leads(m, c, end)
    requires Within(h, c, Limit(h, w, b) + STRIDE) && (b == EXT ==> w + 1 < h.words)
    requires 4 + 4 * h.words <= LONGEST && Limit(h, h.words, 0) <= LONGEST && !Final(m)
    requires if b < EXT then Course(h.buf, h.words, m, w, b + 1).Overlap? else Course(h.buf, h.words, m, w + 1, 0).Overlap?
    ensures KnownNs(h.vns, c.ns) && Overlapping(m, Onwards(h, c, w, b).fields, end)
    decreases h.words - w, EXT - b, 0
  {
    LimitSteps(h, w, b);
    hide Course, Leads, Filled, Within, Overlapping, Rest, Limit;
    if b < EXT {
      RestOverlaps(h, c, m, w, b + 1, end);
    } else {
      RestOverlaps(h, c, m, w + 1, 0, end);
    }
  }

  lemma StillOverlapping(m': Mode, m: Mode, fs: seq<Field>, end: nat)
    requires Overlapping(m', fs, end) && (Outstanding(m') ==> Outstanding(m))
    ensures Overlapping(m, fs, end)
  {
  }

  lemma GivenOverlaps(m: Mode, f: Field, l: Listing, end: nat)
    requires Outstanding(m) && f.off < end
    ensures Overlapping(m, Prepend(f, l).fields, end)
  {
    assert f in Prepend(f, l).fields;
  }

  lemma PrependOverlaps(m': Mode, m: Mode, f: Field, l: Listing, end: nat)
    requires Overlapping(m', l.fields, f.off + f.size)
    ensures Overlapping(m, Prepend(f, l).fields, end)
  {
    if Disjoint(Prepend(f, l).fields) {
      DisjointTail(f, l);
    }
    hide Disjoint, Prepend;
  }

  lemma DisjointTail(f: Field, l: Listing)
    requires Disjoint(Prepend(f, l).fields)
    ensures Disjoint(l.fields) && From(l.fields, f.off + f.size)
  {
    var fs := Prepend(f, l).fields;
    forall i | 0 <= i < |l.fields|
      ensures l.fields[i] == fs[i + 1] && l.fields[i] in fs && f.off + f.size <= l.fields[i].off
    {
      assert fs[0] == f && fs[i + 1] == l.fields[i];
    }
    forall i, j | 0 <= i < j < |l.fields|
      ensures l.fields[i].off + l.fields[i].size <= l.fields[j].off
    {
      assert fs[i + 1] == l.fields[i] && fs[j + 1] == l.fields[j];
    }
  }

  /**
   * The pattern is exactly what order depends on: whatever the data and the length, the fields of
   * headers with these presence words are disjoint and increasing, if and only if the words do not
   * lead back. The bound says that 65535 bytes hold the words and what they can announce.
   */
  lemma OrderedIff(h: Header)
    requires h.Wf() && h.vns.NoVns? && Limit(h, h.words, 0) <= LONGEST
    ensures !FallsBack(h.buf, h.words) <==>
            forall h': Header | h'.Wf() && h'.vns.NoVns? && SameWords(h, h') :: Disjoint(Contents(h').fields)
  {
    if FallsBack(h.buf, h.words) {
      var h' := Stretched(h);
      StretchedIsWellFormed(h);
      SameCourse(h.buf, h'.buf, h.words, Fresh, 0, 0);
      RestOverlaps(h', Cursor(At(h'.DataStart()), Standard, Null), Fresh, 0, 0, 0);
      assert !Disjoint(Contents(h').fields);
    } else {
      forall h': Header | h'.Wf() && h'.vns.NoVns? && SameWords(h, h')
        ensures Disjoint(Contents(h').fields)
      {
        SameCourse(h.buf, h'.buf, h.words, Fresh, 0, 0);
        ContentsOrdered(h');
      }
    }
  }

  /**
   * A sufficient condition on single words: every gap bit that is in force as index 18 follows a word
   * with a vendor block, which makes its namespace opaque, or has no vendor block before it at all.
   */
  predicate Harmless(buf: seq<Byte>, words: nat)
    requires 4 + 4 * words <= |buf|
  {
    forall w | 0 <= w < words && IndexBase(buf, w) == 0 && Present(buf, w, GAP) ::
      (w > 0 && Present(buf, w - 1, VENDOR_NAMESPACE)) || !BlockBefore(buf, w)
  }

  predicate BlockBefore(buf: seq<Byte>, w: nat)
    requires 4 + 4 * w <= |buf|
  {
    exists v :: 0 <= v < w && Present(buf, v, VENDOR_NAMESPACE)
  }

  /** What holds of the mode before bit `b` of word `w` when all gap bits are harmless. */
  ghost predicate Quiet(buf: seq<Byte>, m: Mode, w: nat, b: nat)
    requires 8 + 4 * w <= |buf|
  {
    && m !in {Fallen, Again, Overlap}
    && (m in {Block, Back, Past} ==> BlockBefore(buf, w) || (b == EXT && Present(buf, w, VENDOR_NAMESPACE)))
    && (b < RADIOTAP_NAMESPACE && w > 0 && Present(buf, w - 1, VENDOR_NAMESPACE) ==> m in {Block, Lost, Ended})
    && (b == EXT && Present(buf, w, VENDOR_NAMESPACE) ==> m in {Block, Lost, Ended})
  }

  lemma ByEntry(m: Mode, index: nat)
    ensures AfterBit(m, index) == AfterEntry(m, index, index % 32)
  {
    hide AfterEntry;
  }

  lemma QuietAfter(buf: seq<Byte>, words: nat, m: Mode, w: nat, b: nat)
    requires w < words && 4 + 4 * words <= |buf| && b <= EXT && Harmless(buf, words) && Quiet(buf, m, w, b) && !Final(m)
    ensures var m' := if Present(buf, w, b) then AfterBit(m, IndexBase(buf, w) + b) else m;
            && m' != Overlap
            && (b < EXT ==> Quiet(buf, m', w, b + 1))
            && (b == EXT && w + 1 < words && Present(buf, w, b) ==> Quiet(buf, m', w + 1, 0))
  {
    hide Present, IndexBase, AfterBit;
    var index := IndexBase(buf, w) + b;
    EntryBit(IndexBase(buf, w), b);
    assert AfterBit(m, index) == AfterEntry(m, index, b) by { ByEntry(m, index); }
  }

  lemma {:induction false} HarmlessCourse(buf: seq<Byte>, words: nat, m: Mode, w: nat, b: nat)
    requires w < words && 4 + 4 * words <= |buf| && b <= EXT && Harmless(buf, words) && Quiet(buf, m, w, b)
    ensures !Course(buf, words, m, w, b).Overlap?
    decreases words - w, EXT - b
  {
    if !Final(m) {
      QuietAfter(buf, words, m, w, b);
      CourseAtBit(buf, words, m, w, b);
      hide Course, Present, IndexBase, AfterBit, Final, Harmless, Quiet;
      var m' := if Present(buf, w, b) then AfterBit(m, IndexBase(buf, w) + b) else m;
      if b < EXT {
        HarmlessCourse(buf, words, m', w, b + 1);
      } else if w + 1 < words && Present(buf, w, b) {
        HarmlessCourse(buf, words, m', w + 1, 0);
      }
    }
  }

  lemma HarmlessNeverFallsBack(h: Header)
    requires h.Wf() && Harmless(h.buf, h.words)
    ensures !FallsBack(h.buf, h.words)
  {
    hide Present;
    HarmlessCourse(h.buf, h.words, Fresh, 0, 0);
  }
}
