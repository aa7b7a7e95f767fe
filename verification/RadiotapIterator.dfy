/** The radiotap iterator (drivers/vnet/wifi/radiotap.c), proved against the header format. */
module RadiotapIterator {
  import opened Bits
  import opened Radiotap

  datatype Status = Ok | Fail(err: Error)

  datatype Verdict = Taken | GivenUp | Bad(err: Error)

  /** A verdict, a new cursor and a recorded argument agree with the placement of an argument. */
  ghost predicate Places(h: Header, c: Cursor, index: nat, a: Verdict, c': Cursor, arg: Ptr, argIndex: nat, size: nat)
    requires h.len <= |h.buf| && KnownNs(h.vns, c.ns) && KnownNs(h.vns, c'.ns)
  {
    match Place(h, c, index)
    case Stop(e) => a == Bad(e) && Place(h, c', index) == Stop(e)
    case Silent(c1) =>
      if index % 32 < RADIOTAP_NAMESPACE then a == GivenUp && c' == c1
      else a == Taken && c' == if index % 32 == RADIOTAP_NAMESPACE then c1.(ns := c'.ns) else c1
    case Give(f, c1) =>
      && a == Taken && c' == c1 && arg.At?
      && f == Field(c'.ns, if index % 32 == VENDOR_NAMESPACE then VENDOR_NAMESPACE else argIndex, arg.off, size)
  }

  /** The cursor after an argument was taken: a namespace bit leads back to the standard namespace. */
  function Moved(b: nat, c': Cursor): Cursor
  {
    if b == RADIOTAP_NAMESPACE then c'.(ns := Standard) else c'
  }

  /** Data bits and opaque vendor blocks are returned to the caller. */
  predicate Returned(b: nat, c': Cursor)
  {
    b < RADIOTAP_NAMESPACE || (b == VENDOR_NAMESPACE && c'.ns.Opaque?)
  }

  function Argued(b: nat, c': Cursor, arg: Ptr, argIndex: nat, size: nat): Field
    requires arg.At?
  {
    Field(c'.ns, if b == VENDOR_NAMESPACE then b else argIndex, arg.off, size)
  }

  lemma PlacesAtBit(h: Header, c: Cursor, index: nat, b: nat, a: Verdict, c': Cursor, arg: Ptr, argIndex: nat, size: nat)
    requires h.len <= |h.buf| && KnownNs(h.vns, c.ns) && KnownNs(h.vns, c'.ns) && index % 32 == b
    requires Places(h, c, index, a, c', arg, argIndex, size)
    ensures var p := Place(h, c, index);
            && (a.Bad? ==> p == Stop(a.err) == Place(h, c', index))
            && (a.GivenUp? ==> b < RADIOTAP_NAMESPACE && p == Silent(c'))
            && (a.Taken? && Returned(b, Moved(b, c')) ==> arg.At? && p == Give(Argued(b, Moved(b, c'), arg, argIndex, size), Moved(b, c')))
            && (a.Taken? && !Returned(b, Moved(b, c')) ==> p == Silent(Moved(b, c')))
  {
    hide Place;
  }

  /** What is still to come, after the argument of a present bit. */
  lemma AfterArgument(h: Header, c: Cursor, w: nat, b: nat, a: Verdict, c': Cursor, arg: Ptr, argIndex: nat, size: nat)
    requires h.Wf() && w < h.words && b <= EXT && Present(h.buf, w, b) && KnownNs(h.vns, c.ns) && KnownNs(h.vns, c'.ns)
    requires Places(h, c, IndexBase(h.buf, w) + b, a, c', arg, argIndex, size)
    ensures b == EXT ==> w + 1 < h.words
    ensures a.Bad? ==> Rest(h, c, w, b) == Listing([], a.err) == Rest(h, c', w, b)
    ensures a.GivenUp? ==> b < RADIOTAP_NAMESPACE && Rest(h, c, w, b) == Onwards(h, c', w, b)
    ensures a.Taken? ==>
              if Returned(b, Moved(b, c')) then
                arg.At? && Rest(h, c, w, b) ==
                           Prepend(Argued(b, Moved(b, c'), arg, argIndex, size), Onwards(h, Moved(b, c'), w, b))
              else Rest(h, c, w, b) == Onwards(h, Moved(b, c'), w, b)
  {
    hide Present, Places, Place;
    var index := IndexBase(h.buf, w) + b;
    EntryBit(IndexBase(h.buf, w), b);
    PlacesAtBit(h, c, index, b, a, c', arg, argIndex, size);
    hide IndexBase, Onwards, ChainEnds, Prepend, Argued, Returned;
    RestAtBit(h, c, w, b);
    if a.Bad? {
      RestAtBit(h, c', w, b);
    }
  }

  lemma NoPadding(off: nat)
    ensures AlignUp(off, 1) == off
  {
  }

  lemma ChainTooLong(buf: seq<Byte>, len: nat, scanned: nat)
    requires |buf| >= FIXED_LEN && len <= |buf|
    requires scanned >= 1 && 4 + 4 * scanned <= |buf| && 8 + 4 * scanned > len
    requires forall w | 0 <= w < scanned :: Present(buf, w, EXT)
    ensures !Chained(buf, len)
  {
    forall words: nat
      ensures !ChainEnds(buf, len, words)
    {
      if words <= scanned && words >= 1 {
        assert Present(buf, words - 1, EXT);
      }
    }
  }

  class Iterator {
    var rtheader: seq<Byte>
    var vns: Vns
    var currentNamespace: Namespace
    var isRadiotapNs: bool
    var maxLength: nat
    var argIndex: nat
    var arg: Ptr
    var nextNsData: Ptr
    var nextBitmap: nat
    var bitmapShifter: nat
    var resetOnExt: bool
    var thisArg: Ptr
    var thisArgIndex: nat
    var thisArgSize: nat

    /** The presence words init validated, and the word and bit the shifter stands at. */
    ghost var words: nat
    ghost var word: nat
    ghost var bit: nat

    ghost function Head(): Header
      reads this
    {
      Header(rtheader, maxLength, words, vns)
    }

    ghost function Cur(): Cursor
      reads this
    {
      Cursor(arg, currentNamespace, nextNsData)
    }

    /** Whether this word has a namespace bit below `upto`. */
    ghost predicate ResetSeen(upto: nat)
      requires Head().Wf() && word < words
      reads this
    {
      || (upto > RADIOTAP_NAMESPACE && Present(rtheader, word, RADIOTAP_NAMESPACE))
      || (upto > VENDOR_NAMESPACE && Present(rtheader, word, VENDOR_NAMESPACE))
    }

    ghost predicate Valid()
      reads this
    {
      && Head().Wf()
      && word < words && bit <= EXT
      && KnownNs(vns, currentNamespace)
      && bitmapShifter == Shr(Word(rtheader, word), bit)
      && argIndex == IndexBase(rtheader, word) + bit
      && nextBitmap == 4 + 4 * (word + 1)
      && resetOnExt == ResetSeen(bit)
      && (currentNamespace.Standard? ==> isRadiotapNs)
    }

    /** What the calls still to come will return. */
    ghost function Remaining(): Listing
      requires Valid()
      reads this
    {
      Rest(Head(), Cur(), word, bit)
    }

    /** The argument the last successful call left for the caller to read. */
    ghost function Current(): Field
      requires thisArg.At?
      reads this
    {
      Field(currentNamespace, thisArgIndex, thisArg.off, thisArgSize)
    }

    /** Loads from the header; beyond the fixed part every one must lie inside the stated length. */
    function Load8(i: nat): nat
      requires i < maxLength <= |rtheader|
      reads this
    {
      U8(rtheader, i)
    }

    function Load16(i: nat): nat
      requires i + 2 <= maxLength <= |rtheader|
      reads this
    {
      Le16(rtheader, i)
    }

    function Load32(i: nat): nat
      requires i + 4 <= maxLength <= |rtheader|
      reads this
    {
      Le32(rtheader, i)
    }

    /** The bound check: a null pointer is beyond every header. */
    predicate Beyond(p: Ptr, n: nat)
      reads this
    {
      p.Null? || p.off + n > maxLength
    }

    /** The current field index and the current bit. */
    lemma Entry()
      requires Valid()
      ensures argIndex % 32 == bit && (bitmapShifter % 2 == 1 <==> Present(rtheader, word, bit))
    {
      EntryBit(IndexBase(rtheader, word), bit);
      ShrBit(Word(rtheader, word), bit);
      hide Bit, Shr, Word, IndexBase;
    }

    lemma Absent()
      requires Valid() && !Present(rtheader, word, bit)
      ensures Remaining() == if bit == EXT then Listing([], ENOENT) else Rest(Head(), Cur(), word, bit + 1)
    {
      hide Present, Place, IndexBase, Word, Shr;
    }

    /** Allocation only: the C object is an uninitialised struct until `Init`. */
    constructor ()
    {
      rtheader := [];
    }

    ghost predicate Begun(header: seq<Byte>, namespaces: Vns)
      reads this
    {
      && |header| >= FIXED_LEN && rtheader == header && maxLength == Le16(header, 2) && vns == namespaces
      && word == 0 && bit == 0 && argIndex == 0 && bitmapShifter == Le32(header, 4) && nextBitmap == 8
      && nextNsData == Null && currentNamespace == Standard && !resetOnExt && isRadiotapNs
    }

    method Begin(header: seq<Byte>, namespaces: Vns)
      requires |header| >= FIXED_LEN
      modifies this
      ensures Begun(header, namespaces) && arg == At(FIXED_LEN)
    {
      hide Le16, Le32;
      rtheader := header;
      maxLength := Le16(header, 2);
      argIndex := 0;
      bitmapShifter := Le32(header, 4);
      arg := At(FIXED_LEN);
      nextNsData := Null;
      resetOnExt := false;
      nextBitmap := 4 + 4;
      vns := namespaces;
      currentNamespace := Standard;
      isRadiotapNs := true;
      word, bit := 0, 0;
    }

    /** The fields init leaves behind stand for the whole header. */
    lemma Ready(header: seq<Byte>, namespaces: Vns)
      requires Begun(header, namespaces) && Head().Wf() && arg == At(Head().DataStart())
      ensures Valid() && Remaining() == Contents(Head())
    {
    }

    /** Find the payload start, allowing for extended bitmaps. */
    method ScanExtensions() returns (ok: bool)
      requires |rtheader| >= FIXED_LEN && maxLength <= |rtheader|
      requires bitmapShifter == Word(rtheader, 0) && arg == At(FIXED_LEN)
      modifies this`arg, this`words
      ensures ok ==> ChainEnds(rtheader, maxLength, words) && arg == At(4 + 4 * words)
      ensures ok == Chained(rtheader, maxLength)
    {
      words := 1;
      ok := true;
      if Bit(bitmapShifter, EXT) {
        if arg.off + 4 > maxLength {
          ChainTooLong(rtheader, maxLength, 1);
          return false;
        }
        while Bit(Load32(arg.off), EXT)
          invariant words >= 1 && arg == At(4 + 4 * words) && arg.off + 4 <= maxLength
          invariant forall w | 0 <= w < words :: Present(rtheader, w, EXT)
          decreases maxLength - arg.off
        {
          arg := At(arg.off + 4);
          words := words + 1;
          assert Present(rtheader, words - 1, EXT);
          if arg.off + 4 > maxLength {
            ChainTooLong(rtheader, maxLength, words);
            return false;
          }
        }
        arg := At(arg.off + 4);
        words := words + 1;
      }
      assert ChainEnds(rtheader, maxLength, words);
    }

    method Init(header: seq<Byte>, maxLen: int, namespaces: Vns) returns (r: Status)
      requires maxLen <= |header|
      modifies this
      ensures r.Ok? <==> Acceptable(header, maxLen)
      ensures maxLen < 8 || header[0] != 0 || maxLen < Le16(header, 2) ==> r.Fail?
      ensures r.Fail? ==> r.err == EINVAL
      ensures r.Ok? ==>
                && Valid()
                && maxLength == Le16(header, 2)
                && Head() == Header(header, Le16(header, 2), words, namespaces)
                && Remaining() == Contents(Head())
    {
      hide Present, Place, Rest, IndexBase, Shr, Le32, ChainEnds;
      if maxLen < FIXED_LEN {
        return Fail(EINVAL);
      }
      if header[0] != 0 {
        return Fail(EINVAL);
      }
      if maxLen < Le16(header, 2) {
        return Fail(EINVAL);
      }
      Begin(header, namespaces);
      var ok := ScanExtensions();
      if !ok {
        return Fail(EINVAL);
      }
      thisArg := arg;
      thisArgIndex := 0;
      thisArgSize := 0;
      Ready(header, namespaces);
      return Ok;
    }

    method FindNs(oui: nat, subns: nat)
      modifies this`currentNamespace
      ensures currentNamespace == Lookup(vns, oui, subns, 0)
      ensures FirstNs(vns, oui, subns, currentNamespace)
    {
      LookupIs(vns, oui, subns, Lookup(vns, oui, subns, 0));
      hide FirstNs;
      currentNamespace := Opaque;
      if vns.NoVns? {
        return;
      }
      var i := 0;
      while i < |vns.ns|
        invariant i <= |vns.ns| && currentNamespace == Opaque
        invariant Lookup(vns, oui, subns, 0) == Lookup(vns, oui, subns, i)
      {
        if vns.ns[i].oui != oui {
          i := i + 1;
          continue;
        }
        if vns.ns[i].subns != subns {
          i := i + 1;
          continue;
        }
        currentNamespace := Vendor(i);
        break;
      }
    }

    /** `Valid`, but with the current bit already accounted for in the reset flag. */
    ghost predicate BitDone()
      reads this
    {
      && Head().Wf()
      && word < words && bit <= EXT
      && KnownNs(vns, currentNamespace)
      && bitmapShifter == Shr(Word(rtheader, word), bit)
      && argIndex == IndexBase(rtheader, word) + bit
      && nextBitmap == 4 + 4 * (word + 1)
      && resetOnExt == ResetSeen(bit + 1)
      && (currentNamespace.Standard? ==> isRadiotapNs)
    }

    /** `_bitmap_shifter >>= 1; _arg_index++` */
    method NextEntry()
      requires BitDone() && bit < EXT
      modifies this`bitmapShifter, this`argIndex, this`bit
      ensures Valid() && bit == old(bit) + 1
    {
      ShrBit(Word(rtheader, word), bit);
      bitmapShifter := bitmapShifter / 2;
      argIndex := argIndex + 1;
      bit := bit + 1;
    }

    /** Moves to the next presence word, at bit 31. */
    method NextWord()
      requires BitDone() && bit == EXT && Present(rtheader, word, EXT)
      modifies this`bitmapShifter, this`argIndex, this`resetOnExt, this`nextBitmap, this`word, this`bit
      ensures Valid() && word == old(word) + 1 && bit == 0
    {
      hide Bit, U8;
      assert word + 1 < words;
      bitmapShifter := Load32(nextBitmap);
      nextBitmap := nextBitmap + 4;
      if resetOnExt {
        argIndex := 0;
      } else {
        argIndex := argIndex + 1;
      }
      resetOnExt := false;
      word, bit := word + 1, 0;
    }

    /** Reads a vendor block's OUI, sub-namespace and skip length; returns the size to step over. */
    method VendorBlock() returns (size: nat)
      requires arg.At? && arg.off + 6 <= maxLength <= |rtheader|
      modifies this`currentNamespace, this`nextNsData
      ensures var skip := Le16(rtheader, arg.off + 4);
              && currentNamespace == Lookup(vns, VendorOui(rtheader, arg.off), U8(rtheader, arg.off + 3), 0)
              && nextNsData == At(arg.off + 6 + skip)
              && size == if currentNamespace.Opaque? then 6 + skip else 6
    {
      size := 6;
      var oui := 0x1_0000 * Load8(arg.off) + 0x100 * Load8(arg.off + 1) + Load8(arg.off + 2);
      var subns := Load8(arg.off + 3);
      FindNs(oui, subns);
      var vnslen := Load16(arg.off + 4);
      nextNsData := At(arg.off + size + vnslen);
      if currentNamespace.Opaque? {
        size := size + vnslen;
      }
    }

    method AlignAndSize() returns (v: Verdict, align: nat, size: nat)
      requires KnownNs(vns, currentNamespace)
      modifies this`arg, this`currentNamespace
      ensures v == Taken ==> align >= 1 && Cur() == old(Cur())
      ensures argIndex % 32 in {RADIOTAP_NAMESPACE, EXT} ==> v == Taken && align == 1 && size == 0
      ensures argIndex % 32 == VENDOR_NAMESPACE ==> v == Taken && align == 2 && size == 6
      ensures argIndex % 32 < RADIOTAP_NAMESPACE ==>
                var table := Table(vns, old(currentNamespace));
                if argIndex >= |table| && old(currentNamespace.Standard?) then
                  v == Bad(ENOENT) && Cur() == old(Cur())
                else if argIndex >= |table| || table[argIndex].align == 0 then
                  v == GivenUp && Cur() == Cursor(nextNsData, Opaque, nextNsData)
                else
                  v == Taken && align == table[argIndex].align && size == table[argIndex].size
    {
      v, align, size := Taken, 1, 0;
      if argIndex % 32 == RADIOTAP_NAMESPACE || argIndex % 32 == EXT {
      } else if argIndex % 32 == VENDOR_NAMESPACE {
        align, size := 2, 6;
      } else {
        var table := Table(vns, currentNamespace);
        if currentNamespace.Opaque? || argIndex >= |table| {
          if currentNamespace.Standard? {
            v := Bad(ENOENT);
            return;
          }
          align := 0;
        } else {
          align, size := table[argIndex].align, table[argIndex].size;
        }
        if align == 0 {
          // skip all subsequent data and give up on this namespace
          arg := nextNsData;
          currentNamespace := Opaque;
          v := GivenUp;
        }
      }
    }

    /** Records the argument for the caller and moves over it. */
    method Take(size: nat) returns (a: Verdict)
      modifies this`arg, this`thisArg, this`thisArgIndex, this`thisArgSize
      ensures thisArgIndex == argIndex && thisArg == old(arg) && thisArgSize == size
      ensures arg == if thisArg.Null? then Null else At(thisArg.off + size)
      ensures a == if Beyond(thisArg, size) then Bad(EINVAL) else Taken
    {
      thisArgIndex := argIndex;
      thisArg := arg;
      thisArgSize := size;
      if arg.At? {
        arg := At(arg.off + size);
      }
      a := if Beyond(arg, 0) then Bad(EINVAL) else Taken;
    }

    /**
     * The argument of a present bit: its alignment and size, padding, the vendor block, the bound
     * checks. `GivenUp` means the namespace's table does not cover the bit.
     */
    method Argument() returns (a: Verdict)
      requires maxLength <= |rtheader| && KnownNs(vns, currentNamespace)
      modifies this`arg, this`currentNamespace, this`nextNsData, this`thisArg, this`thisArgIndex, this`thisArgSize
      ensures KnownNs(vns, currentNamespace) && (currentNamespace.Standard? ==> old(currentNamespace.Standard?))
      ensures a.Taken? && argIndex % 32 == VENDOR_NAMESPACE ==> !currentNamespace.Standard?
      ensures Places(Head(), old(Cur()), argIndex, a, Cur(), thisArg, thisArgIndex, thisArgSize)
    {
      hide AlignUp, U8, VendorOui, Le16, Lookup;
      var v, align, size := AlignAndSize();
      if v != Taken {
        return v;
      }
      // alignment is relative to the start of the radiotap header
      if arg.At? {
        NoPadding(arg.off);
        arg := At(AlignUp(arg.off, align));
      }
      if argIndex % 32 == VENDOR_NAMESPACE {
        if Beyond(arg, size) {
          return Bad(EINVAL);
        }
        size := VendorBlock();
      }
      a := Take(size);
    }

    /** After an argument was taken: the marks valid in each bitmap word, or a hit. */
    method Special() returns (hit: bool)
      requires Valid() && Present(rtheader, word, bit)
      requires bit == VENDOR_NAMESPACE ==> !currentNamespace.Standard?
      modifies this`bitmapShifter, this`argIndex, this`resetOnExt, this`nextBitmap, this`isRadiotapNs,
               this`currentNamespace, this`thisArgIndex, this`word, this`bit
      ensures Valid()
      ensures word > old(word) || (word == old(word) && bit > old(bit))
      ensures Remaining() == Onwards(Head(), Cur(), old(word), old(bit))
      ensures currentNamespace == if old(bit) == RADIOTAP_NAMESPACE then Standard else old(currentNamespace)
      ensures thisArgIndex == if old(bit) == VENDOR_NAMESPACE then VENDOR_NAMESPACE else old(thisArgIndex)
      ensures hit == (old(bit) < RADIOTAP_NAMESPACE || (old(bit) == VENDOR_NAMESPACE && currentNamespace.Opaque?))
    {
      hide Present, Shr, Le32, U8, Word, IndexBase, Place, Rest, ChainEnds;
      Entry();
      hit := false;
      if argIndex % 32 == VENDOR_NAMESPACE {
        resetOnExt := true;
        isRadiotapNs := false;
        thisArgIndex := VENDOR_NAMESPACE;
        if currentNamespace.Opaque? {
          hit := true;
        }
        NextEntry();
      } else if argIndex % 32 == RADIOTAP_NAMESPACE {
        resetOnExt := true;
        currentNamespace := Standard;
        isRadiotapNs := true;
        NextEntry();
      } else if argIndex % 32 == EXT {
        NextWord();
      } else {
        hit := true;
        NextEntry();
      }
    }

    /** The namespace's table does not cover the bit: on to the next one. */
    method GiveUp()
      requires Valid() && Present(rtheader, word, bit) && bit < RADIOTAP_NAMESPACE
      modifies this`bitmapShifter, this`argIndex, this`bit
      ensures Valid() && word == old(word) && bit == old(bit) + 1
      ensures Remaining() == Onwards(Head(), Cur(), old(word), old(bit))
    {
      hide Present, Word, IndexBase, ChainEnds, Place, Rest;
      NextEntry();
    }

    /** A present bit: `Taken` is a hit, `GivenUp` means that the walk goes on. */
    method Visit() returns (a: Verdict)
      requires Valid() && Present(rtheader, word, bit)
      modifies this
      ensures Valid() && Head() == old(Head())
      ensures a.Bad? ==> old(Remaining()) == Listing([], a.err) && Remaining() == old(Remaining())
      ensures a.GivenUp? ==> Remaining() == old(Remaining())
      ensures a.GivenUp? ==> word > old(word) || (word == old(word) && bit > old(bit))
      ensures a.Taken? ==> thisArg.At? && old(Remaining()) == Prepend(Current(), Remaining())
    {
      ghost var h, c, w, b := Head(), Cur(), word, bit;
      hide Present, Word, IndexBase, ChainEnds, Place, Rest, Onwards;
      a := Argument();
      assert Head() == h;
      AfterArgument(h, c, w, b, a, Cur(), thisArg, thisArgIndex, thisArgSize);
      hide Places, Prepend;
      if a.Bad? {
        return;
      }
      if a.GivenUp? {
        GiveUp();
        return;
      }
      var hit := Special();
      if !hit {
        a := GivenUp;
      }
    }

    method Next() returns (r: Status)
      requires Valid()
      modifies this
      ensures Valid() && Head() == old(Head())
      ensures r.Fail? ==> old(Remaining()) == Listing([], r.err) && Remaining() == old(Remaining())
      ensures r.Ok? ==> thisArg.At? && old(Remaining()) == Prepend(Current(), Remaining())
    {
      hide Present, Shr, Le32, U8, Word, IndexBase, Place, Rest, ChainEnds, Prepend;
      while true
        invariant Valid() && Head() == old(Head())
        invariant Remaining() == old(Remaining())
        decreases words - word, EXT - bit
      {
        Entry();
        // no more EXT bits
        if argIndex % 32 == EXT && bitmapShifter % 2 == 0 {
          Absent();
          return Fail(ENOENT);
        }
        if bitmapShifter % 2 == 0 {
          Absent();
          NextEntry();
          continue;
        }
        var a := Visit();
        if a.Bad? {
          return Fail(a.err);
        }
        if a.Taken? {
          return Ok;
        }
      }
    }

    /** The documented use: call `Next` until it returns non-zero. */
    method Drain() returns (fields: seq<Field>, err: Error)
      requires Valid()
      modifies this
      ensures Valid() && Head() == old(Head())
      ensures Listing(fields, err) == old(Remaining())
      ensures Remaining() == Listing([], err)
    {
      fields := [];
      var r := Next();
      while r.Ok?
        invariant Valid() && Head() == old(Head())
        invariant r.Ok? ==> thisArg.At?
        invariant old(Remaining()) ==
                  Listing(fields + (if r.Ok? then [Current()] else []) + Remaining().fields, Remaining().err)
        invariant r.Fail? ==> Remaining() == Listing([], r.err)
        decreases r.Ok?, |Remaining().fields|
      {
        fields := fields + [Field(currentNamespace, thisArgIndex, thisArg.off, thisArgSize)];
        r := Next();
      }
      err := r.err;
    }

    /** Errors are sticky: once the walk has ended, every later call returns the same code. */
    method CallAgain(times: nat, ghost err: Error) returns (rs: seq<Status>)
      requires Valid() && Remaining() == Listing([], err)
      modifies this
      ensures Valid() && Remaining() == Listing([], err)
      ensures |rs| == times && forall i | 0 <= i < times :: rs[i] == Fail(err)
    {
      rs := [];
      while |rs| < times
        invariant Valid() && Remaining() == Listing([], err)
        invariant |rs| <= times && forall i | 0 <= i < |rs| :: rs[i] == Fail(err)
      {
        var r := Next();
        rs := rs + [r];
      }
    }
  }

  /**
   * Initialising and draining an iterator yields exactly the reference listing of the header, for
   * any registered namespaces, and refuses exactly the headers whose presence chain is broken.
   */
  method Walk(header: seq<Byte>, maxLen: int, namespaces: Vns)
    returns (ok: bool, fields: seq<Field>, err: Error, ghost words: nat)
    requires maxLen <= |header|
    ensures ok <==> Acceptable(header, maxLen)
    ensures ok ==>
              var h := Header(header, Le16(header, 2), words, namespaces);
              h.Wf() && Listing(fields, err) == Contents(h)
    ensures !ok ==> fields == [] && err == EINVAL
  {
    var it := new Iterator();
    var r := it.Init(header, maxLen, namespaces);
    ok, fields, err, words := r.Ok?, [], EINVAL, it.words;
    if ok {
      fields, err := it.Drain();
    }
  }
}
