/** Colon-separated hexadecimal bytes with wildcards (drivers/vnet/wifi/cv_drv_wifi_util.c). */
module HexMask {
  import opened Bits

  const NUL := '\0'
  const INT_RANGE := 0x1_0000_0000

  /** What a group says: skip this byte, or a value, or nothing `parse_hex_mask` accepts. */
  datatype Cell = Skip | Value(byte: Byte) | Bad

  datatype Outcome = Parsed | Refused | Outside

  function Digit(c: char): (v: int)
    ensures -1 <= v < 16
  {
    if '0' <= c <= '9' then c as int - '0' as int
    else if 'a' <= c <= 'f' then c as int - 'a' as int + 10
    else if 'A' <= c <= 'F' then c as int - 'A' as int + 10
    else -1
  }

  predicate AllDigits(s: string)
  {
    forall i | 0 <= i < |s| :: Digit(s[i]) >= 0
  }

  function Number(s: string): nat
    requires AllDigits(s)
  {
    if s == [] then 0 else 16 * Number(s[..|s| - 1]) + Digit(s[|s| - 1])
  }

  function AfterSpace(s: string): (r: string)
  {
    if s != [] && (s[0] == ' ' || '\t' <= s[0] <= '\r') then AfterSpace(s[1..]) else s
  }

  /** An optional sign, and an optional `0x` that must have a digit behind it. */
  function Sign(body: string): (sign: string)
    ensures |sign| <= |body| && sign == body[..|sign|] && (sign == "" || sign == "-" || sign == "+")
  {
    if body != "" && (body[0] == '-' || body[0] == '+') then body[..1] else ""
  }

  function Prefix(rest: string): (prefix: string)
    ensures |prefix| <= |rest| && prefix == rest[..|prefix|] && (prefix == "" || prefix == "0x" || prefix == "0X")
  {
    if |rest| > 2 && rest[0] == '0' && (rest[1] == 'x' || rest[1] == 'X') && Digit(rest[2]) >= 0 then rest[..2] else ""
  }

  /** `-n` in an unsigned type of `ulong` values. */
  function Negated(n: nat, ulong: nat): (r: nat)
    requires n < ulong
    ensures r < ulong
  {
    if n == 0 then 0 else ulong - n
  }

  /**
   * `strtoul` in base 16 when it stops at the end of the group and nowhere before, for an
   * `unsigned long` of `ulong` values; -1 when it stops before.
   */
  function Strtoul(group: string, ulong: nat): (v: int)
    requires ulong > 0
    ensures -1 <= v < ulong
  {
    var body := AfterSpace(group);
    var sign := Sign(body);
    var rest := body[|sign|..];
    var digits := rest[|Prefix(rest)|..];
    if group == [] then 0
    else if digits == [] || !AllDigits(digits) then -1
    else if Number(digits) >= ulong then ulong - 1
    else if sign == "-" then Negated(Number(digits), ulong)
    else Number(digits)
  }

  predicate AllSpace(s: string)
  {
    forall i | 0 <= i < |s| :: s[i] == ' ' || '\t' <= s[i] <= '\r'
  }

  lemma {:induction false} AfterSpaceIs(space: string, rest: string)
    requires AllSpace(space) && (rest == "" || !AllSpace(rest[..1]))
    ensures AfterSpace(space + rest) == rest
  {
    if space == "" {
      assert space + rest == rest;
      if rest != "" {
        assert rest[..1] == [rest[0]];
      }
    } else {
      assert (space + rest)[1..] == space[1..] + rest && (space + rest)[0] == space[0];
      AfterSpaceIs(space[1..], rest);
    }
  }

  /** How much white space stands in front. */
  lemma {:induction false} SpaceBefore(s: string) returns (n: nat)
    ensures n <= |s| && AllSpace(s[..n]) && AfterSpace(s) == s[n..]
  {
    n := 0;
    if s != "" && (s[0] == ' ' || '\t' <= s[0] <= '\r') {
      var m := SpaceBefore(s[1..]);
      n := m + 1;
      assert s[..n] == [s[0]] + s[1..][..m];
    }
  }

  /** A numeral as `strtoul` reads it: white space, a sign, `0x`, digits. */
  predicate Numeral(group: string, space: string, sign: string, prefix: string, digits: string)
  {
    && group == space + (sign + (prefix + digits))
    && AllSpace(space) && (sign == "" || sign == "+" || sign == "-") && (prefix == "" || prefix == "0x" || prefix == "0X")
    && digits != "" && AllDigits(digits)
  }

  /** The value of a numeral; too large a number saturates, a negative one wraps. */
  lemma StrtoulReads(group: string, ulong: nat, space: string, sign: string, prefix: string, digits: string)
    requires ulong > 0 && Numeral(group, space, sign, prefix, digits)
    ensures Strtoul(group, ulong) ==
            if Number(digits) >= ulong then ulong - 1
            else if sign == "-" then Negated(Number(digits), ulong)
            else Number(digits)
  {
    var rest := prefix + digits;
    PrefixIs(prefix, digits);
    SignIs(sign, rest);
    AfterSpaceIs(space, sign + rest);
    hide AllDigits, AllSpace, AfterSpace, Number, Sign, Prefix, Negated;
  }

  lemma PrefixIs(prefix: string, digits: string)
    requires (prefix == "" || prefix == "0x" || prefix == "0X") && digits != "" && AllDigits(digits)
    ensures Prefix(prefix + digits) == prefix && (prefix + digits)[|prefix|..] == digits
    ensures Digit((prefix + digits)[0]) >= 0
  {
    assert Digit(digits[0]) >= 0;
    if prefix == "" {
      assert prefix + digits == digits;
      if |digits| > 1 {
        assert Digit(digits[1]) >= 0;
      }
    }
  }

  lemma SignIs(sign: string, rest: string)
    requires (sign == "" || sign == "+" || sign == "-") && rest != "" && Digit(rest[0]) >= 0
    ensures Sign(sign + rest) == sign && (sign + rest)[|sign|..] == rest && !AllSpace((sign + rest)[..1])
  {
    assert (sign + rest)[..1] == [(sign + rest)[0]];
  }

  /** A non-empty group is read to its end if and only if it is a numeral. */
  lemma StrtoulIff(group: string, ulong: nat)
    requires ulong > 0 && group != ""
    ensures Strtoul(group, ulong) >= 0 <==>
            exists space, sign, prefix, digits :: Numeral(group, space, sign, prefix, digits)
  {
    if Strtoul(group, ulong) >= 0 {
      var space, sign, prefix, digits := NumeralParts(group, ulong);
    }
    hide Strtoul, Numeral;
    forall space, sign, prefix, digits | Numeral(group, space, sign, prefix, digits)
      ensures Strtoul(group, ulong) >= 0
    {
      StrtoulReads(group, ulong, space, sign, prefix, digits);
    }
  }

  lemma NumeralParts(group: string, ulong: nat) returns (space: string, sign: string, prefix: string, digits: string)
    requires ulong > 0 && group != "" && Strtoul(group, ulong) >= 0
    ensures Numeral(group, space, sign, prefix, digits)
  {
    var n := SpaceBefore(group);
    space, sign := group[..n], Sign(group[n..]);
    var rest := group[n..][|sign|..];
    prefix := Prefix(rest);
    digits := rest[|prefix|..];
    hide AllDigits, AllSpace, AfterSpace, Number, Sign, Prefix;
    Rejoined(group, n, |sign|, |prefix|);
  }

  lemma Rejoined(s: string, n: nat, a: nat, b: nat)
    requires n + a + b <= |s|
    ensures s == s[..n] + (s[n..][..a] + (s[n..][a..][..b] + s[n..][a..][b..]))
  {
  }

  predicate Wildcard(group: string)
  {
    group == "-" || group == "xx" || group == "--"
  }

  /** The value goes through an `int`, so only its low 32 bits are compared. */
  function CellOf(group: string, masked: bool, ulong: nat): Cell
    requires ulong > 0
  {
    if masked && Wildcard(group) then Skip
    else
      var v := Strtoul(group, ulong);
      if v >= 0 && v % INT_RANGE <= 255 then Value(v % INT_RANGE) else Bad
  }

  /** Exactly three texts stand for a byte that is skipped. */
  lemma SkipIff(group: string, masked: bool, ulong: nat)
    requires ulong > 0
    ensures CellOf(group, masked, ulong) == Skip <==> masked && (group == "-" || group == "xx" || group == "--")
  {
    hide Strtoul;
  }

  /** What any other group says: its value's low 32 bits if they are a byte; nothing if it is no numeral. */
  lemma CellReads(group: string, masked: bool, ulong: nat, space: string, sign: string, prefix: string, digits: string)
    requires ulong > 0 && !(masked && Wildcard(group)) && Numeral(group, space, sign, prefix, digits)
    ensures var n := if Number(digits) >= ulong then ulong - 1 else if sign == "-" then Negated(Number(digits), ulong) else Number(digits);
            CellOf(group, masked, ulong) == if n % 0x1_0000_0000 < 0x100 then Value(n % 0x1_0000_0000) else Bad
  {
    StrtoulReads(group, ulong, space, sign, prefix, digits);
    hide Strtoul, Number, Numeral, Wildcard;
  }

  lemma BadIfNoNumeral(group: string, masked: bool, ulong: nat)
    requires ulong > 0 && group != "" && !(masked && Wildcard(group))
    requires !exists space, sign, prefix, digits :: Numeral(group, space, sign, prefix, digits)
    ensures CellOf(group, masked, ulong) == Bad
  {
    StrtoulIff(group, ulong);
    hide Strtoul, Numeral, Wildcard;
  }

  function Cells(groups: seq<string>, masked: bool, ulong: nat): (cells: seq<Cell>)
    requires ulong > 0
    ensures |cells| == |groups|
  {
    seq(|groups|, i requires 0 <= i < |groups| => CellOf(groups[i], masked, ulong))
  }

  lemma CellAt(groups: seq<string>, masked: bool, ulong: nat, k: nat)
    requires ulong > 0 && k < |groups|
    ensures Cells(groups, masked, ulong)[k] == CellOf(groups[k], masked, ulong)
  {
  }

  /** `strchr(s, ':')` as an index, the length if there is none. */
  function Colon(s: string): (c: nat)
    ensures c <= |s| && (c < |s| ==> s[c] == ':') && ':' !in s[..c]
  {
    if s == [] || s[0] == ':' then 0 else
      var c := Colon(s[1..]);
      assert s[..1 + c] == [s[0]] + s[1..][..c];
      1 + c
  }

  function Groups(s: string): (groups: seq<string>)
    ensures |groups| > 0
  {
    var c := Colon(s);
    if c == |s| then [s] else [s[..c]] + Groups(s[c + 1..])
  }

  function Join(groups: seq<string>): string
    requires groups != []
  {
    if |groups| == 1 then groups[0] else groups[0] + ":" + Join(groups[1..])
  }

  /** Where group `k` starts. */
  function Offset(groups: seq<string>, k: nat): nat
    requires k <= |groups|
  {
    if k == 0 then 0 else Offset(groups, k - 1) + |groups[k - 1]| + 1
  }

  /** Group `k` is refused, or its value has no room in a buffer of `room` bytes. */
  predicate Halts(cells: seq<Cell>, room: nat, k: nat)
    requires k < |cells|
  {
    cells[k].Bad? || (cells[k].Value? && k >= room)
  }

  /** The first `n` groups were all taken. */
  ghost predicate Passed(cells: seq<Cell>, room: nat, n: nat)
    requires n <= |cells|
  {
    forall k | 0 <= k < n :: !Halts(cells, room, k)
  }

  /** The sizes of the two buffers for a text of `len` characters. */
  function Room(len: nat): nat { len / 2 + 2 }

  function MaskRoom(len: nat): nat { (len / 2 + 7) / 8 + 2 }

  predicate Sized(result: nat, mask: nat, masked: bool, len: nat)
  {
    result == Room(len) && mask == if masked then MaskRoom(len) else 0
  }

  /** The mask has a bit for every byte of the other buffer. */
  lemma MaskCovers(len: nat, pos: nat)
    requires pos < Room(len)
    ensures pos / 8 < MaskRoom(len)
  {
  }

  /** The bytes of the first `n` groups, the rest zero. */
  ghost predicate Stored(result: seq<Byte>, cells: seq<Cell>, n: nat)
    requires n <= |cells|
  {
    forall k | 0 <= k < |result| :: result[k] == if k < n && cells[k].Value? then cells[k].byte else 0
  }

  /** One bit for each of the first `n` groups, set unless the group is a wildcard. */
  ghost predicate Marked(mask: seq<Byte>, cells: seq<Cell>, n: nat)
    requires n <= |cells|
  {
    forall q, r | 0 <= q < |mask| && 0 <= r < 8 :: Bit(mask[q], r) <==> 8 * q + r < n && cells[8 * q + r].Value?
  }

  /** What the first `n` groups leave in the two buffers, none of them ending the parse. */
  ghost predicate Taken(result: seq<Byte>, mask: seq<Byte>, cells: seq<Cell>, n: nat)
    requires n <= |cells|
  {
    Passed(cells, |result|, n) && Stored(result, cells, n) && Marked(mask, cells, n)
  }

  lemma NothingTaken(result: seq<Byte>, mask: seq<Byte>, cells: seq<Cell>)
    requires (forall k | 0 <= k < |result| :: result[k] == 0) && forall q | 0 <= q < |mask| :: mask[q] == 0
    ensures Taken(result, mask, cells, 0)
  {
    forall r: nat
      ensures !Bit(0, r)
    {
      BitZero(r);
    }
  }

  /** `result_mask[pos / 8] |= 1 << (pos % 8)`. */
  method SetBit(mask: array<Byte>, pos: nat, ghost cells: seq<Cell>)
    requires pos / 8 < mask.Length && pos < |cells| && cells[pos].Value? && Marked(mask[..], cells, pos)
    modifies mask
    ensures Marked(mask[..], cells, pos + 1)
  {
    var q, r := pos / 8, pos % 8;
    ghost var was := mask[..];
    assert Pow2(8) == 0x100 by { assert Pow2(4) == 16; }
    mask[q] := Low(Or(mask[q], Pow2(r)), 8);
    forall b | 0 <= b < 8
      ensures Bit(mask[q], b) <==> Bit(was[q], b) || b == r
    {
      BitLow(Or(was[q], Pow2(r)), 8, b);
      BitOr(was[q], Pow2(r), b);
      BitPow2(r, b);
    }
    hide Bit;
    SetBitMarks(was, mask[..], cells, q, r);
  }

  lemma SetBitMarks(was: seq<Byte>, mask: seq<Byte>, cells: seq<Cell>, q: nat, r: nat)
    requires q < |was| == |mask| && r < 8 && 8 * q + r < |cells| && cells[8 * q + r].Value?
    requires Marked(was, cells, 8 * q + r) && mask == was[q := mask[q]]
    requires forall b | 0 <= b < 8 :: Bit(mask[q], b) <==> Bit(was[q], b) || b == r
    ensures Marked(mask, cells, 8 * q + r + 1)
  {
    hide Bit;
    forall q', r' | 0 <= q' < |mask| && 0 <= r' < 8
      ensures Bit(mask[q'], r') <==> 8 * q' + r' < 8 * q + r + 1 && cells[8 * q' + r'].Value?
    {
      assert Bit(was[q'], r') <==> 8 * q' + r' < 8 * q + r && cells[8 * q' + r'].Value?;
    }
  }

  lemma SkipMarks(mask: seq<Byte>, cells: seq<Cell>, pos: nat)
    requires pos < |cells| && !cells[pos].Value? && Marked(mask, cells, pos)
    ensures Marked(mask, cells, pos + 1)
  {
    hide Bit;
  }

  /** One group: skipped, stored, or the end of the parse. */
  method TakeGroup(group: string, masked: bool, ulong: nat, pos: nat, ghost len: nat,
                   result: array<Byte>, mask: array<Byte>, ghost cells: seq<Cell>)
    returns (out: Outcome)
    requires ulong > 0 && pos < |cells| && cells[pos] == CellOf(group, masked, ulong) && result != mask
    requires Sized(result.Length, mask.Length, masked, len)
    requires Taken(result[..], mask[..], cells, pos)
    modifies result, mask
    ensures out == if !Halts(cells, result.Length, pos) then Parsed else if cells[pos].Bad? then Refused else Outside
    ensures Taken(result[..], mask[..], cells, if out == Parsed then pos + 1 else pos)
  {
    hide Marked, Strtoul;
    if masked && Wildcard(group) {
      SkipMarks(mask[..], cells, pos);
      return Parsed;
    }
    var temp := Strtoul(group, ulong);
    if temp < 0 || temp % INT_RANGE > 255 {
      return Refused;
    }
    if pos >= result.Length {
      return Outside;
    }
    result[pos] := temp % INT_RANGE;
    if masked {
      MaskCovers(len, pos);
      SetBit(mask, pos, cells);
    } else {
      NoMarks(mask[..], cells, pos + 1);
    }
    return Parsed;
  }

  lemma NoMarks(mask: seq<Byte>, cells: seq<Cell>, n: nat)
    requires mask == [] && n <= |cells|
    ensures Marked(mask, cells, n)
  {
  }

  /** The text with the colons before `n` overwritten. */
  predicate CutUpTo(s: string, t: string, n: nat)
  {
    |t| == |s| && forall i | 0 <= i < |s| :: t[i] == if i < n && s[i] == ':' then NUL else s[i]
  }

  /** Group `pos` starts at `start`, and the groups from there on are those of the rest of the text. */
  ghost predicate Ahead(s: string, start: nat, groups: seq<string>, pos: nat)
  {
    && pos < |groups| && start <= |s| && start == Offset(groups, pos)
    && Groups(s[start..]) == groups[pos..]
  }

  lemma NextGroup(s: string, start: nat, groups: seq<string>, pos: nat)
    requires Ahead(s, start, groups, pos)
    ensures var cp := start + Colon(s[start..]);
            && groups[pos] == s[start..cp] && Offset(groups, pos + 1) == cp + 1
            && (cp == |s| <==> pos + 1 == |groups|)
            && (cp < |s| ==> Ahead(s, cp + 1, groups, pos + 1))
  {
    var c := Colon(s[start..]);
    assert groups[pos] == groups[pos..][0];
    assert groups[pos + 1..] == groups[pos..][1..];
    if start + c < |s| {
      assert s[start..][c + 1..] == s[start + c + 1..];
    }
  }

  /** `strchr`, and a zero in the place of the colon. */
  method CutGroup(text: array<char>, start: nat, ghost s: string, ghost groups: seq<string>, ghost pos: nat)
    returns (cp: nat, group: string)
    requires Ahead(s, start, groups, pos) && CutUpTo(s, text[..], start)
    modifies text
    ensures pos < |groups| && group == groups[pos] && cp + 1 == Offset(groups, pos + 1)
    ensures if cp == text.Length then pos + 1 == |groups| else Ahead(s, cp + 1, groups, pos + 1)
    ensures CutUpTo(s, text[..], cp + 1)
  {
    NextGroup(s, start, groups, pos);
    ghost var was := text[..];
    NotYetCut(s, was, start);
    hide Offset, Groups, CutUpTo, Ahead, Colon;
    cp := start + Colon(text[start..]);
    if cp < text.Length {
      text[cp] := NUL;
    }
    CutOneMore(s, was, start, cp, text[..]);
    group := text[start..cp];
  }

  /** The same for the buffers themselves, and for the text. */
  ghost predicate TakenIn(result: array<Byte>, mask: array<Byte>, cells: seq<Cell>, n: nat)
    requires n <= |cells|
    reads result, mask
  {
    Taken(result[..], mask[..], cells, n)
  }

  ghost predicate CutIn(text: array<char>, s: string, n: nat)
    reads text
  {
    CutUpTo(s, text[..], n)
  }

  /** Before group `pos` is cut off at `start`. */
  ghost predicate Underway(text: array<char>, result: array<Byte>, mask: array<Byte>,
                           s: string, groups: seq<string>, cells: seq<Cell>, start: nat, pos: nat)
    requires |cells| == |groups|
    reads text, result, mask
  {
    Ahead(s, start, groups, pos) && CutIn(text, s, start) && TakenIn(result, mask, cells, pos)
  }

  /** After the last group, or the one that ended the parse. */
  ghost predicate Done(text: array<char>, result: array<Byte>, mask: array<Byte>,
                       s: string, groups: seq<string>, cells: seq<Cell>, out: Outcome, resultLen: nat)
    requires |cells| == |groups|
    reads text, result, mask
  {
    && resultLen <= |cells| && TakenIn(result, mask, cells, resultLen)
    && (resultLen < |cells| ==> Halts(cells, result.Length, resultLen))
    && out == (if resultLen == |cells| then Parsed else if cells[resultLen].Bad? then Refused else Outside)
    && CutIn(text, s, Offset(groups, if resultLen < |groups| then resultLen + 1 else resultLen))
  }

  /** One turn of the loop of `parse_hex_mask`: cut a group off and take it. */
  method OneGroup(text: array<char>, masked: bool, ulong: nat, start: nat, pos: nat, result: array<Byte>, mask: array<Byte>,
                  ghost s: string, ghost groups: seq<string>, ghost cells: seq<Cell>)
    returns (out: Outcome, cp: nat)
    requires ulong > 0 && cells == Cells(groups, masked, ulong)
    requires result != mask && result as object != text && mask as object != text
    requires Sized(result.Length, mask.Length, masked, text.Length)
    requires Underway(text, result, mask, s, groups, cells, start, pos)
    modifies text, result, mask
    ensures if out == Parsed && cp != text.Length then
              Underway(text, result, mask, s, groups, cells, cp + 1, pos + 1) && pos + 1 < |groups|
            else
              Done(text, result, mask, s, groups, cells, out, if out == Parsed then pos + 1 else pos)
  {
    hide Groups, Cells, CellOf, Taken, Halts, Colon, Offset, CutUpTo, Sized, Room, MaskRoom;
    var group;
    cp, group := CutGroup(text, start, s, groups, pos);
    CellAt(groups, masked, ulong, pos);
    out := TakeGroup(group, masked, ulong, pos, text.Length, result, mask, cells);
  }

  /** The loop of `parse_hex_mask`, on zeroed buffers; the length reported so far is also the position. */
  method TakeGroups(text: array<char>, masked: bool, ulong: nat, result: array<Byte>, mask: array<Byte>,
                    ghost s: string, ghost groups: seq<string>, ghost cells: seq<Cell>)
    returns (out: Outcome, resultLen: nat)
    requires ulong > 0 && s == text[..] && groups == Groups(s) && cells == Cells(groups, masked, ulong)
    requires result != mask && result as object != text && mask as object != text
    requires Sized(result.Length, mask.Length, masked, text.Length)
    requires TakenIn(result, mask, cells, 0)
    modifies text, result, mask
    ensures Done(text, result, mask, s, groups, cells, out, resultLen)
  {
    resultLen := 0;
    var start := 0;
    assert Underway(text, result, mask, s, groups, cells, 0, 0) by { assert s[0..] == s && groups[0..] == groups; }
    hide Groups, Cells, Underway, Done, Sized;
    while true
      invariant resultLen < |groups| && Underway(text, result, mask, s, groups, cells, start, resultLen)
      decreases |groups| - resultLen
    {
      var cp;
      out, cp := OneGroup(text, masked, ulong, start, resultLen, result, mask, s, groups, cells);
      if out != Parsed {
        return;
      }
      resultLen := resultLen + 1;
      if cp == text.Length {
        return;
      }
      start := cp + 1;
    }
  }

  /** `parse_hex_mask`, which cuts the text at its colons. */
  method ParseHexMask(text: array<char>, masked: bool, ulong: nat)
    returns (out: Outcome, resultLen: nat, result: array<Byte>, mask: array<Byte>)
    requires NUL !in text[..] && ulong > 0
    modifies text
    ensures fresh(result) && fresh(mask)
    ensures result.Length == text.Length / 2 + 2 && mask.Length == if masked then (text.Length / 2 + 7) / 8 + 2 else 0
    ensures var cells := Cells(Groups(old(text[..])), masked, ulong);
            && resultLen <= |cells| && Taken(result[..], mask[..], cells, resultLen)
            && (resultLen < |cells| ==> Halts(cells, result.Length, resultLen))
            && out == (if resultLen == |cells| then Parsed else if cells[resultLen].Bad? then Refused else Outside)
    ensures var groups := Groups(old(text[..]));
            resultLen <= |groups|
            && CutUpTo(old(text[..]), text[..], Offset(groups, if resultLen < |groups| then resultLen + 1 else resultLen))
  {
    ghost var groups := Groups(text[..]);
    ghost var cells := Cells(groups, masked, ulong);
    result := new Byte[Room(text.Length)](_ => 0);
    mask := new Byte[if masked then MaskRoom(text.Length) else 0](_ => 0);
    NothingTaken(result[..], mask[..], cells);
    hide Groups, Cells, CellOf, Taken, Halts, Colon, Offset, CutUpTo, Room, MaskRoom;
    out, resultLen := TakeGroups(text, masked, ulong, result, mask, text[..], groups, cells);
  }

  lemma NotYetCut(s: string, t: string, start: nat)
    requires CutUpTo(s, t, start) && start <= |s|
    ensures |t| == |s| && t[start..] == s[start..]
  {
  }

  lemma CutOneMore(s: string, was: string, start: nat, cp: nat, t: string)
    requires CutUpTo(s, was, start) && start <= cp <= |s| && ':' !in s[start..cp]
    requires t == if cp < |s| then was[cp := NUL] else was
    requires cp < |s| ==> s[cp] == ':'
    ensures CutUpTo(s, t, cp + 1) && t[start..cp] == s[start..cp]
  {
    forall i | start <= i < cp
      ensures s[i] != ':'
    {
      assert s[start..cp][i - start] == s[i];
    }
  }

  /** A way to write a cell down: a wildcard, or one or two hexadecimal digits of either case. */
  predicate Prints(group: string, cell: Cell)
  {
    match cell
    case Skip => Wildcard(group)
    case Value(byte) => 1 <= |group| <= 2 && AllDigits(group) && Number(group) == byte
    case Bad => false
  }

  lemma PrintedCell(group: string, cell: Cell, ulong: nat)
    requires Prints(group, cell) && ulong >= INT_RANGE
    ensures CellOf(group, true, ulong) == cell && group != "" && ':' !in group && NUL !in group
  {
    if cell.Value? {
      PlainDigits(group);
      PlainNumeral(group, ulong);
      SmallValue(cell.byte);
      hide Strtoul, Number, AllDigits, Wildcard;
    }
  }

  const LOWER := "0123456789abcdef"
  const UPPER := "0123456789ABCDEF"

  /** A byte printed with two digits of either case is read back. */
  lemma TwoDigits(b: Byte, masked: bool, ulong: nat)
    requires ulong >= 0x100
    ensures CellOf([LOWER[b / 16], LOWER[b % 16]], masked, ulong) == Value(b)
    ensures CellOf([UPPER[b / 16], UPPER[b % 16]], masked, ulong) == Value(b)
  {
    DigitOf(b / 16);
    DigitOf(b % 16);
    TwoDigitGroup(LOWER[b / 16], LOWER[b % 16], b, masked, ulong);
    TwoDigitGroup(UPPER[b / 16], UPPER[b % 16], b, masked, ulong);
  }

  lemma DigitOf(d: nat)
    requires d < 16
    ensures Digit(LOWER[d]) == d == Digit(UPPER[d])
  {
  }

  lemma TwoDigitGroup(hi: char, lo: char, b: Byte, masked: bool, ulong: nat)
    requires Digit(hi) == b / 16 && Digit(lo) == b % 16 && ulong >= 0x100
    ensures CellOf([hi, lo], masked, ulong) == Value(b)
  {
    var group := [hi, lo];
    assert group[..1] == [hi] && [hi][..0] == [];
    assert Number([hi]) == Digit(hi);
    assert AllDigits(group) && Number(group) == b;
    PlainDigits(group);
    PlainNumeral(group, ulong);
    SmallValue(b);
    hide Strtoul, Number, AllDigits, Wildcard;
  }

  lemma SmallValue(v: Byte)
    ensures v % INT_RANGE == v
  {
  }

  lemma PlainNumeral(group: string, ulong: nat)
    requires AllDigits(group) && group != "" && Number(group) < ulong
    ensures Strtoul(group, ulong) == Number(group)
  {
    var none := group[..0];
    Rejoined(group, 0, 0, 0);
    hide AllDigits, Number, Strtoul;
    assert Numeral(group, none, none, none, group);
    StrtoulReads(group, ulong, none, none, none, group);
  }

  lemma PlainDigits(group: string)
    requires AllDigits(group) && group != ""
    ensures !Wildcard(group) && ':' !in group && NUL !in group
  {
    assert Digit(group[0]) >= 0 && forall c | c in group :: Digit(c) >= 0;
  }

  lemma {:induction false} GroupsOfJoin(groups: seq<string>)
    requires groups != [] && forall i | 0 <= i < |groups| :: ':' !in groups[i]
    ensures Groups(Join(groups)) == groups
  {
    var g, s := groups[0], Join(groups);
    if |groups| == 1 {
      ColonAfter(g, "");
      assert g + "" == g && groups == [g];
    } else {
      var rest := Join(groups[1..]);
      assert s == g + (":" + rest);
      ColonAfter(g, ":" + rest);
      assert s[..|g|] == g && s[|g| + 1..] == rest;
      GroupsOfJoin(groups[1..]);
      assert groups == [g] + groups[1..];
    }
  }

  lemma {:induction false} ColonAfter(g: string, rest: string)
    requires ':' !in g && (rest == "" || rest[0] == ':')
    ensures Colon(g + rest) == |g|
  {
    if g == "" {
      assert g + rest == rest;
    } else {
      assert (g + rest)[1..] == g[1..] + rest;
      ColonAfter(g[1..], rest);
    }
  }

  /** Splitting loses nothing but the colons. */
  lemma {:induction false} JoinOfGroups(s: string)
    ensures Join(Groups(s)) == s && forall i | 0 <= i < |Groups(s)| :: ':' !in Groups(s)[i]
  {
    var c, groups := Colon(s), Groups(s);
    if c == |s| {
      assert s[..c] == s;
    } else {
      var rest := s[c + 1..];
      JoinOfGroups(rest);
      assert groups == [s[..c]] + Groups(rest) && groups[1..] == Groups(rest);
      assert s == s[..c] + ":" + rest;
    }
  }

  predicate NonEmpty(groups: seq<string>)
  {
    forall i | 0 <= i < |groups| :: groups[i] != ""
  }

  /** Without empty groups there are at most half as many groups as characters, rounded up. */
  lemma {:induction false} FewGroups(s: string)
    requires NonEmpty(Groups(s))
    ensures 2 * |Groups(s)| <= |s| + 1
  {
    var c, groups := Colon(s), Groups(s);
    assert groups[0] != "";
    if c < |s| {
      var rest := Groups(s[c + 1..]);
      forall i | 0 <= i < |rest|
        ensures rest[i] != ""
      {
        assert rest[i] == groups[i + 1];
      }
      FewGroups(s[c + 1..]);
    }
  }

  /** So every write stays inside. */
  lemma NonEmptyGroupsFit(s: string, masked: bool, ulong: nat, k: nat)
    requires ulong > 0 && NonEmpty(Groups(s)) && k < |Groups(s)|
    ensures k < Room(|s|)
    ensures Halts(Cells(Groups(s), masked, ulong), Room(|s|), k) ==> Cells(Groups(s), masked, ulong)[k].Bad?
  {
    FewGroups(s);
  }

  /** An empty group reads as zero, so four colons alone ask for a fifth byte where there is room for four. */
  lemma EmptyGroupsNeedMore(ulong: nat)
    requires ulong > 0
    ensures Groups("::::") == ["", "", "", "", ""] && Room(4) == 4
    ensures var cells := Cells(Groups("::::"), false, ulong);
            cells[4] == Value(0) && Halts(cells, Room(4), 4) && forall k | 0 <= k < 4 :: !Halts(cells, Room(4), k)
  {
    LeadingColon(":::");
    LeadingColon("::");
    LeadingColon(":");
    LeadingColon("");
    hide Groups;
    assert ":" + "" == ":" && ":" + ":" == "::" && ":" + "::" == ":::" && ":" + ":::" == "::::";
    assert CellOf("", false, ulong) == Value(0);
  }

  lemma LeadingColon(s: string)
    ensures Groups(":" + s) == [""] + Groups(s)
    ensures Groups("") == [""]
  {
    assert (":" + s)[1..] == s && (":" + s)[..0] == "";
  }

  lemma {:induction false} NoNul(groups: seq<string>)
    requires groups != [] && forall i | 0 <= i < |groups| :: NUL !in groups[i]
    ensures NUL !in Join(groups)
  {
    if |groups| > 1 {
      NoNul(groups[1..]);
    }
  }

  lemma PrintedGroups(groups: seq<string>, cells: seq<Cell>, ulong: nat)
    requires ulong >= INT_RANGE && |groups| == |cells| > 0 && forall i | 0 <= i < |cells| :: Prints(groups[i], cells[i])
    ensures NUL !in Join(groups) && Groups(Join(groups)) == groups && Cells(groups, true, ulong) == cells
    ensures forall k | 0 <= k < |cells| :: k < Room(|Join(groups)|) && !cells[k].Bad?
  {
    forall i | 0 <= i < |cells|
      ensures CellOf(groups[i], true, ulong) == cells[i] && groups[i] != "" && ':' !in groups[i] && NUL !in groups[i]
    {
      PrintedCell(groups[i], cells[i], ulong);
    }
    hide CellOf;
    GroupsOfJoin(groups);
    NoNul(groups);
    FewGroups(Join(groups));
  }

  /** `parse_hex_mask` undoes printing: every byte in its place, a mask bit for each of them. */
  method ParsePrinted(text: array<char>, ulong: nat, ghost groups: seq<string>, ghost cells: seq<Cell>)
    returns (out: Outcome, resultLen: nat, result: array<Byte>, mask: array<Byte>)
    requires ulong >= INT_RANGE && |groups| == |cells| > 0 && text[..] == Join(groups)
    requires forall i | 0 <= i < |cells| :: Prints(groups[i], cells[i])
    modifies text
    ensures out == Parsed && resultLen == |cells| <= result.Length && Stored(result[..], cells, resultLen)
    ensures (resultLen - 1) / 8 < mask.Length && Marked(mask[..], cells, resultLen)
  {
    PrintedGroups(groups, cells, ulong);
    hide Groups, Cells, Join, Prints, Stored, Marked;
    out, resultLen, result, mask := ParseHexMask(text, true, ulong);
  }
}
