/** The monitor socket's filter (drivers/vnet/wifi/cv_drv_wifi_dev.c) and the packets it keeps. */
module MonitorFilter {
  import opened Bits
  import opened Bpf
  import opened BpfAssembler

  const FILTER: seq<Insn> := [
    Insn(0x30, 0, 0, 2),                   // 0  A := byte 2, low byte of the radiotap length
    Insn(0x07, 0, 0, 0),                   // 1  X := A
    Insn(0x30, 0, 0, 3),                   // 2  A := byte 3
    Insn(0x64, 0, 0, 8),                   // 3  A := A << 8
    Insn(0x4C, 0, 0, 0),                   // 4  A := A | X
    Insn(0x07, 0, 0, 0),                   // 5  X := A, start of the 802.11 frame
    Insn(0x50, 0, 0, 0),                   // 6  A := low byte of frame control
    Insn(0x54, 0, 0, 0x0F),                // 7  type and version
    Insn(0x15, PASS, 0, 0),                // 8
    Insn(0x48, 0, 0, 0),                   // 9  A := frame control, as a big-endian half-word
    Insn(0x54, 0, 0, 0x0F03),              // 10 type, version and DS bits
    Insn(0x15, PASS, 0, 0x0801),           // 11
    Insn(0x50, 0, 0, 1),                   // 12 A := high byte of frame control
    Insn(0x54, 0, 0, 0x03),                // 13 DS bits
    Insn(0x15, PASS, 0, 3),                // 14
    Insn(0x50, 0, 0, 0),                   // 15
    Insn(0x54, 0, 0, 0x80),                // 16 QoS bit
    Insn(0x74, 0, 0, 6),                   // 17 0 or 2
    Insn(0x04, 0, 0, 24),                  // 18 data header length
    Insn(0x0C, 0, 0, 0),                   // 19
    Insn(0x07, 0, 0, 0),                   // 20 X := start of the LLC header
    Insn(0x80, 0, 0, 0),                   // 21 A := packet length
    Insn(0x1D, PASS, 0, 0),                // 22
    Insn(0x40, 0, 0, 0),                   // 23
    Insn(0x15, 0, FAIL, 0xAAAA_0300),      // 24
    Insn(0x40, 0, 0, 4),                   // 25
    Insn(0x15, PASS, FAIL, 0x0000_888E),   // 26
    Insn(0x06, 0, 0, 0),                   // 27 drop
    Insn(0x06, 0, 0, WORD - 1)             // 28 keep all
  ]

  const KEEP := WORD - 1

  /** The frame control bits of section 8.2.4.1 of IEEE 802.11-2012, at the start of a frame. */
  datatype FrameControl = FrameControl(version: nat, ftype: nat, subtype: nat, toDs: bool, fromDs: bool)

  function ControlAt(pkt: seq<Byte>, f: nat): FrameControl
    requires f + 2 <= |pkt|
  {
    var lo, hi := U8(pkt, f), U8(pkt, f + 1);
    FrameControl(lo % 4, lo / 4 % 4, lo / 16, hi % 2 == 1, hi / 2 % 2 == 1)
  }

  /**
   * What the filter is for: management frames, frames to a distribution system, frames between
   * distribution systems, empty frames and EAPOL frames.
   */
  predicate Wanted(pkt: seq<Byte>)
  {
    |pkt| >= 4 &&
    var f := Le16(pkt, 2);
    && f < |pkt|
    && (U8(pkt, f) % 16 == 0 || (f + 2 <= |pkt| && WantedOther(pkt, f)))
  }

  predicate WantedOther(pkt: seq<Byte>, f: nat)
    requires f + 2 <= |pkt|
  {
    var c := ControlAt(pkt, f);
    var llc := f + if c.subtype >= 8 then 26 else 24;
    || (c.version == 0 && c.ftype == 2 && c.toDs && !c.fromDs)
    || (c.toDs && c.fromDs)
    || |pkt| == llc
    || (llc + 8 <= |pkt| && Be32(pkt, llc) == 0xAAAA_0300 && Be32(pkt, llc + 4) == 0x0000_888E)
  }

  /** `lo | hi << 8` is the little-endian number. */
  lemma {:induction false} OrShifted(lo: nat, hi: nat, k: nat, scale: nat)
    requires scale == Pow2(k) && lo < scale
    ensures Or(hi * scale, lo) == hi * scale + lo
  {
    if hi > 0 && lo > 0 {
      assert k > 0;
      var half := Pow2(k - 1);
      assert hi * scale == 2 * (hi * half);
      OrShifted(lo / 2, hi, k - 1, half);
    }
  }

  lemma WrapSmall(x: nat)
    requires x < WORD
    ensures Wrap(x) == x
  {
  }

  lemma ShiftStep(v: nat, n: nat)
    requires v * 2 < WORD && n > 0
    ensures ShiftLeft(v, n) == ShiftLeft(v * 2, n - 1)
  {
    WrapSmall(v * 2);
  }

  lemma ShiftFour(v: nat, n: nat)
    requires v * 0x10 < WORD && n >= 4
    ensures ShiftLeft(v, n) == ShiftLeft(v * 0x10, n - 4)
  {
    hide ShiftLeft;
    ShiftStep(v, n);
    ShiftStep(v * 2, n - 1);
    ShiftStep(v * 4, n - 2);
    ShiftStep(v * 8, n - 3);
  }

  lemma ShiftLeft8(v: Byte)
    ensures ShiftLeft(v, 8) == v * 0x100
  {
    assert ShiftLeft(v * 0x100, 0) == v * 0x100;
    hide ShiftLeft;
    ShiftFour(v, 8);
    ShiftFour(v * 0x10, 4);
  }

  lemma AndUnfold(x: nat, y: nat)
    ensures And(x, y) == (if x % 2 == 1 && y % 2 == 1 then 1 else 0) + 2 * And(x / 2, y / 2)
  {
  }

  lemma AndCons(p: nat, x: nat, q: nat, y: nat)
    requires p < 2 && q < 2
    ensures And(p + 2 * x, q + 2 * y) == (if p == 1 && q == 1 then 1 else 0) + 2 * And(x, y)
  {
    hide And;
    AndUnfold(p + 2 * x, q + 2 * y);
  }

  /** `a` followed by the low `k` bits of `b`. */
  function Join(a: nat, b: nat, k: nat): nat
    decreases k
  {
    if k == 0 then a else b % 2 + 2 * Join(a, b / 2, k - 1)
  }

  /** Masks act on the two parts of a number separately. */
  lemma {:induction false} AndJoin(a: nat, b: nat, c: nat, d: nat, k: nat)
    ensures And(Join(a, b, k), Join(c, d, k)) == Join(And(a, c), And(b, d), k)
    decreases k
  {
    if k > 0 {
      hide And;
      AndJoin(a, b / 2, c, d / 2, k - 1);
      AndCons(b % 2, Join(a, b / 2, k - 1), d % 2, Join(c, d / 2, k - 1));
      AndUnfold(b, d);
      assert And(b, d) / 2 == And(b / 2, d / 2);
    }
  }

  lemma {:induction false} JoinIs(a: nat, b: nat, k: nat)
    requires b < Pow2(k)
    ensures Join(a, b, k) == a * Pow2(k) + b
    decreases k
  {
    if k > 0 {
      var half := Pow2(k - 1);
      JoinIs(a, b / 2, k - 1);
      assert a * Pow2(k) == 2 * (a * half);
    }
  }

  lemma JoinByte(a: nat, b: Byte)
    ensures Join(a, b, 8) == a * 0x100 + b
  {
    assert Pow2(8) == 0x100;
    JoinIs(a, b, 8);
  }

  lemma MaskType(lo: Byte)
    ensures And(lo, 0x0F) == lo % 16
  {
    hide And;
    AndUnfold(lo, 0x0F);
    AndLowMask(lo / 2, 8);
  }

  /** The half-word load of frame control is big-endian: the mask picks type, version and DS bits. */
  lemma MaskControl(lo: Byte, hi: Byte)
    ensures And(lo * 0x100 + hi, 0x0F03) == lo % 16 * 0x100 + hi % 4
  {
    hide And, Join;
    MaskType(lo);
    AndLowMask(hi, 4);
    AndJoin(lo, hi, 0x0F, 0x03, 8);
    JoinByte(lo, hi);
    JoinByte(0x0F, 0x03);
    JoinByte(lo % 16, hi % 4);
  }

  /** `(lo & 0x80) >> 6`: two more header bytes for a QoS frame. */
  lemma MaskQos(lo: Byte)
    ensures And(lo, 0x80) == lo / 0x80 * 0x80
    ensures Shr(And(lo, 0x80), 6) == if lo / 16 >= 8 then 2 else 0
  {
    assert Pow2(7) == 0x80;
    AndJoin(lo / 0x80, lo % 0x80, 1, 0, 7);
    AndLowMask(lo / 0x80, 2);
    hide And, Pow2;
    JoinIs(lo / 0x80, lo % 0x80, 7);
    JoinIs(1, 0, 7);
    JoinIs(And(lo / 0x80, 1), And(lo % 0x80, 0), 7);
    assert lo / 0x80 in {0, 1};
    assert Shr(0x80, 6) == 2 && Shr(0, 6) == 0;
  }

  /** Instruction `pc` goes on to the next one, or drops the packet. */
  lemma Step(pc: nat, i: Insn, s: State, e: Effect, pkt: seq<Byte>)
    requires pc + 1 < |FILTER| && FILTER[pc] == i && Class(i.code) !in {JMP, RET}
    requires Execute(i, s, pkt) == e
    ensures Run(FILTER, Labelled, pc, s, pkt) == if e.Drop? then 0 else Run(FILTER, Labelled, pc + 1, e.s, pkt)
  {
    hide FILTER, Execute;
  }

  /** A test that leads to PASS when taken. */
  lemma StepToPass(pc: nat, i: Insn, s: State, pkt: seq<Byte>)
    requires pc + 2 < |FILTER| && FILTER[pc] == i && i.jt == PASS && i.jf == 0
    requires i.code in {0x15, 0x1D}
    ensures Run(FILTER, Labelled, pc, s, pkt) ==
            if s.a == (if i.code == 0x1D then s.x else i.k) then KEEP else Run(FILTER, Labelled, pc + 1, s, pkt)
  {
    assert FILTER[28] == Insn(0x06, 0, 0, KEEP) && |FILTER| == 29;
    assert Class(0x15) == JMP && Class(0x1D) == JMP && Class(0x06) == RET && Size(0x06) == 0;
    hide FILTER, Execute;
    assert Run(FILTER, Labelled, 28, s, pkt) == KEEP;
  }

  function Loading(s: State, v: Loaded): Effect
  {
    match v
    case Value(a) => Go(s.(a := a))
    case OutOfBounds => Drop
  }

  lemma Loads(k: U32, s: State, pkt: seq<Byte>)
    ensures Execute(Insn(0x30, 0, 0, k), s, pkt) == Loading(s, LoadPacket(pkt, 2, k))
    ensures Execute(Insn(0x50, 0, 0, k), s, pkt) == Loading(s, LoadPacket(pkt, 2, s.x + k))
    ensures Execute(Insn(0x48, 0, 0, k), s, pkt) == Loading(s, LoadPacket(pkt, 1, s.x + k))
    ensures Execute(Insn(0x40, 0, 0, k), s, pkt) == Loading(s, LoadPacket(pkt, 0, s.x + k))
    ensures Execute(Insn(0x80, 0, 0, 0), s, pkt) == Go(s.(a := Wrap(|pkt|)))
    ensures Execute(Insn(0x07, 0, 0, 0), s, pkt) == Go(s.(x := s.a))
  {
    hide LoadPacket, Arithmetic, Wrap;
  }

  lemma Masks(k: U32, s: State, pkt: seq<Byte>)
    ensures Execute(Insn(0x54, 0, 0, k), s, pkt) == Go(s.(a := And(s.a, k)))
    ensures Execute(Insn(0x64, 0, 0, k), s, pkt) == Go(s.(a := ShiftLeft(s.a, k)))
    ensures Execute(Insn(0x74, 0, 0, k), s, pkt) == Go(s.(a := Shr(s.a, k)))
  {
    hide LoadPacket, LoadA, LoadX, And, Or, Shr, ShiftLeft, Wrap;
  }

  lemma Sums(k: U32, s: State, pkt: seq<Byte>)
    ensures Execute(Insn(0x04, 0, 0, k), s, pkt) == Go(s.(a := Wrap(s.a + k)))
    ensures Execute(Insn(0x0C, 0, 0, 0), s, pkt) == Go(s.(a := Wrap(s.a + s.x)))
    ensures Execute(Insn(0x4C, 0, 0, 0), s, pkt) == Go(s.(a := Wrap(Or(s.a, s.x))))
  {
    hide LoadPacket, LoadA, LoadX, And, Or, Shr, ShiftLeft, Wrap;
  }

  /** The verdict of going on at instruction `pc`. */
  function On(pc: nat, s: State, pkt: seq<Byte>): U32
    requires pc < |FILTER|
  {
    Run(FILTER, Labelled, pc, s, pkt)
  }

  /** What each instruction does; a packet load out of bounds drops. */
  lemma At0(s: State, pkt: seq<Byte>)
    ensures On(0, s, pkt) == if |pkt| < 3 then 0 else On(1, s.(a := U8(pkt, 2)), pkt)
  {
    Loads(2, s, pkt);
    Step(0, Insn(0x30, 0, 0, 2), s, Loading(s, LoadPacket(pkt, 2, 2)), pkt);
  }

  lemma AtTax(pc: nat, s: State, pkt: seq<Byte>)
    requires pc in {1, 5, 20}
    ensures On(pc, s, pkt) == On(pc + 1, s.(x := s.a), pkt)
  {
    Loads(0, s, pkt);
    hide Execute;
    Step(pc, Insn(0x07, 0, 0, 0), s, Go(s.(x := s.a)), pkt);
  }

  lemma At2(s: State, pkt: seq<Byte>)
    ensures On(2, s, pkt) == if |pkt| < 4 then 0 else On(3, s.(a := U8(pkt, 3)), pkt)
  {
    Loads(3, s, pkt);
    Step(2, Insn(0x30, 0, 0, 3), s, Loading(s, LoadPacket(pkt, 2, 3)), pkt);
  }

  lemma At3(s: State, pkt: seq<Byte>)
    requires s.a < 0x100
    ensures On(3, s, pkt) == On(4, s.(a := s.a * 0x100), pkt)
  {
    hide ShiftLeft, Execute;
    ShiftLeft8(s.a);
    Masks(8, s, pkt);
    Step(3, Insn(0x64, 0, 0, 8), s, Go(s.(a := s.a * 0x100)), pkt);
  }

  lemma OrBytes(lo: Byte, hi: Byte)
    ensures Or(hi * 0x100, lo) == hi * 0x100 + lo
  {
    assert Pow2(8) == 0x100;
    OrShifted(lo, hi, 8, 0x100);
  }

  lemma At4(s: State, hi: Byte, pkt: seq<Byte>)
    requires s.x < 0x100 && s.a == hi * 0x100
    ensures On(4, s, pkt) == On(5, s.(a := s.x + s.a), pkt)
  {
    hide Or, Execute, Wrap;
    OrBytes(s.x, hi);
    Sums(0, s, pkt);
    var r := s.x + s.a;
    WrapSmall(r);
    Step(4, Insn(0x4C, 0, 0, 0), s, Go(s.(a := r)), pkt);
  }

  /** Instructions 0 to 5 leave the radiotap length in both registers. */
  lemma ReadsLength(pkt: seq<Byte>)
    ensures On(0, START, pkt) ==
            if |pkt| < 4 then 0 else On(6, START.(a := Le16(pkt, 2), x := Le16(pkt, 2)), pkt)
  {
    hide On;
    At0(START, pkt);
    if |pkt| >= 3 {
      var lo := U8(pkt, 2);
      AtTax(1, START.(a := lo), pkt);
      At2(START.(a := lo, x := lo), pkt);
      if |pkt| >= 4 {
        var hi := U8(pkt, 3);
        At3(START.(a := hi, x := lo), pkt);
        At4(START.(a := hi * 0x100, x := lo), hi, pkt);
        AtTax(5, START.(a := Le16(pkt, 2), x := lo), pkt);
      }
    }
  }

  lemma AtByte(pc: nat, k: nat, s: State, pkt: seq<Byte>)
    requires (pc, k) in {(6, 0), (12, 1), (15, 0)}
    ensures On(pc, s, pkt) == if s.x + k >= |pkt| then 0 else On(pc + 1, s.(a := U8(pkt, s.x + k)), pkt)
  {
    Loads(k, s, pkt);
    hide Execute;
    Step(pc, Insn(0x50, 0, 0, k), s, Loading(s, LoadPacket(pkt, 2, s.x + k)), pkt);
  }

  lemma AtHalf(s: State, pkt: seq<Byte>)
    ensures On(9, s, pkt) == if s.x + 2 > |pkt| then 0 else On(10, s.(a := Be16(pkt, s.x)), pkt)
  {
    Loads(0, s, pkt);
    hide Execute;
    Step(9, Insn(0x48, 0, 0, 0), s, Loading(s, LoadPacket(pkt, 1, s.x)), pkt);
  }

  lemma AtWord(pc: nat, k: nat, s: State, pkt: seq<Byte>)
    requires (pc, k) in {(23, 0), (25, 4)}
    ensures On(pc, s, pkt) == if s.x + k + 4 > |pkt| then 0 else On(pc + 1, s.(a := Be32(pkt, s.x + k)), pkt)
  {
    Loads(k, s, pkt);
    hide Execute;
    Step(pc, Insn(0x40, 0, 0, k), s, Loading(s, LoadPacket(pkt, 0, s.x + k)), pkt);
  }

  lemma AtMask(pc: nat, k: U32, s: State, pkt: seq<Byte>)
    requires (pc, k) in {(7, 0x0F), (10, 0x0F03), (13, 0x03), (16, 0x80)}
    ensures On(pc, s, pkt) == On(pc + 1, s.(a := And(s.a, k)), pkt)
  {
    hide And, Execute;
    Masks(k, s, pkt);
    Step(pc, Insn(0x54, 0, 0, k), s, Go(s.(a := And(s.a, k))), pkt);
  }

  lemma AtTest(pc: nat, k: U32, s: State, pkt: seq<Byte>)
    requires (pc, k) in {(8, 0), (11, 0x0801), (14, 3)}
    ensures On(pc, s, pkt) == if s.a == k then KEEP else On(pc + 1, s, pkt)
  {
    StepToPass(pc, Insn(0x15, PASS, 0, k), s, pkt);
  }

  /** Instructions 6 to 8 keep management frames. */
  lemma KeepsManagement(s: State, pkt: seq<Byte>)
    ensures On(6, s, pkt) ==
            if s.x >= |pkt| then 0
            else if U8(pkt, s.x) % 16 == 0 then KEEP
            else On(9, s.(a := U8(pkt, s.x) % 16), pkt)
  {
    hide On, And;
    AtByte(6, 0, s, pkt);
    if s.x < |pkt| {
      var lo := U8(pkt, s.x);
      AtMask(7, 0x0F, s.(a := lo), pkt);
      MaskType(lo);
      AtTest(8, 0, s.(a := lo % 16), pkt);
    }
  }

  /** Instructions 9 to 11 keep data frames to the distribution system. */
  lemma KeepsToDs(s: State, pkt: seq<Byte>)
    ensures s.x + 2 > |pkt| ==> On(9, s, pkt) == 0
    ensures s.x + 2 <= |pkt| ==>
              var lo, hi := U8(pkt, s.x), U8(pkt, s.x + 1);
              On(9, s, pkt) ==
              if lo % 16 == 8 && hi % 4 == 1 then KEEP else On(12, s.(a := lo % 16 * 0x100 + hi % 4), pkt)
  {
    hide On, And;
    AtHalf(s, pkt);
    if s.x + 2 <= |pkt| {
      var lo, hi := U8(pkt, s.x), U8(pkt, s.x + 1);
      AtMask(10, 0x0F03, s.(a := Be16(pkt, s.x)), pkt);
      MaskControl(lo, hi);
      AtTest(11, 0x0801, s.(a := lo % 16 * 0x100 + hi % 4), pkt);
    }
  }

  /** Instructions 12 to 14 keep frames with both DS bits. */
  lemma KeepsWds(s: State, pkt: seq<Byte>)
    requires s.x + 2 <= |pkt|
    ensures var hi := U8(pkt, s.x + 1);
            On(12, s, pkt) == if hi % 4 == 3 then KEEP else On(15, s.(a := hi % 4), pkt)
  {
    hide On, And;
    AtByte(12, 1, s, pkt);
    var hi := U8(pkt, s.x + 1);
    AtMask(13, 0x03, s.(a := hi), pkt);
    AndLowMask(hi, 4);
    AtTest(14, 3, s.(a := hi % 4), pkt);
  }

  function LlcStart(pkt: seq<Byte>, f: nat): nat
    requires f < |pkt|
  {
    f + if U8(pkt, f) / 16 >= 8 then 26 else 24
  }

  lemma AtAdd24(s: State, pkt: seq<Byte>)
    requires s.a <= 2
    ensures On(18, s, pkt) == On(19, s.(a := s.a + 24), pkt)
  {
    hide Execute, Wrap;
    Sums(24, s, pkt);
    WrapSmall(s.a + 24);
    Step(18, Insn(0x04, 0, 0, 24), s, Go(s.(a := s.a + 24)), pkt);
  }

  lemma SumX(s: State, pkt: seq<Byte>)
    requires s.a + s.x < WORD
    ensures Execute(Insn(0x0C, 0, 0, 0), s, pkt) == Go(s.(a := s.a + s.x))
  {
    hide Execute, Wrap;
    Sums(0, s, pkt);
    WrapSmall(s.a + s.x);
  }

  lemma AtAddX(s: State, pkt: seq<Byte>)
    requires s.a <= 26 && s.x < 0x1_0000
    ensures On(19, s, pkt) == On(20, s.(a := s.a + s.x), pkt)
  {
    hide Execute;
    SumX(s, pkt);
    Step(19, Insn(0x0C, 0, 0, 0), s, Go(s.(a := s.a + s.x)), pkt);
  }

  lemma AtShiftRight(s: State, pkt: seq<Byte>)
    ensures On(17, s, pkt) == On(18, s.(a := Shr(s.a, 6)), pkt)
  {
    hide Shr, Execute;
    Masks(6, s, pkt);
    Step(17, Insn(0x74, 0, 0, 6), s, Go(s.(a := Shr(s.a, 6))), pkt);
  }

  /** Instructions 15 to 20 move to the LLC header. */
  lemma MovesToLlc(s: State, pkt: seq<Byte>)
    requires s.x < |pkt| && s.x < 0x1_0000
    ensures var llc := LlcStart(pkt, s.x);
            On(15, s, pkt) == On(21, s.(a := llc, x := llc), pkt)
  {
    hide On, And, Shr;
    AtByte(15, 0, s, pkt);
    var lo := U8(pkt, s.x);
    AtMask(16, 0x80, s.(a := lo), pkt);
    MaskQos(lo);
    var qos := if lo / 16 >= 8 then 2 else 0;
    AtShiftRight(s.(a := And(lo, 0x80)), pkt);
    AtAdd24(s.(a := qos), pkt);
    AtAddX(s.(a := qos + 24), pkt);
    AtTax(20, s.(a := LlcStart(pkt, s.x)), pkt);
  }

  /** Instructions 21 and 22 keep frames that end at the LLC header. */
  lemma KeepsEmpty(s: State, pkt: seq<Byte>)
    requires |pkt| < WORD
    ensures On(21, s, pkt) == if |pkt| == s.x then KEEP else On(23, s.(a := |pkt|), pkt)
  {
    hide Execute, Wrap;
    Loads(0, s, pkt);
    WrapSmall(|pkt|);
    Step(21, Insn(0x80, 0, 0, 0), s, Go(s.(a := |pkt|)), pkt);
    StepToPass(22, Insn(0x1D, PASS, 0, 0), s.(a := |pkt|), pkt);
  }

  /** The two tests that may lead to FAIL. */
  lemma AtSnap(s: State, pkt: seq<Byte>)
    ensures On(24, s, pkt) == if s.a == 0xAAAA_0300 then On(25, s, pkt) else 0
    ensures On(26, s, pkt) == if s.a == 0x0000_888E then KEEP else 0
  {
    assert FILTER[24] == Insn(0x15, 0, FAIL, 0xAAAA_0300) && FILTER[26] == Insn(0x15, PASS, FAIL, 0x0000_888E);
    assert FILTER[27] == Insn(0x06, 0, 0, 0) && FILTER[28] == Insn(0x06, 0, 0, KEEP) && |FILTER| == 29;
    assert Class(0x15) == JMP && Class(0x06) == RET && Size(0x06) == 0;
    hide FILTER, Execute;
    assert On(27, s, pkt) == 0 && On(28, s, pkt) == KEEP;
  }

  /** Instructions 23 to 26 keep EAPOL frames and drop the rest. */
  lemma KeepsEapol(s: State, pkt: seq<Byte>)
    ensures On(23, s, pkt) ==
            if s.x + 8 <= |pkt| && Be32(pkt, s.x) == 0xAAAA_0300 && Be32(pkt, s.x + 4) == 0x0000_888E then KEEP else 0
  {
    hide On, Be32;
    AtWord(23, 0, s, pkt);
    if s.x + 4 <= |pkt| {
      var s24 := s.(a := Be32(pkt, s.x));
      AtSnap(s24, pkt);
      AtWord(25, 4, s24, pkt);
      if s.x + 8 <= |pkt| {
        AtSnap(s24.(a := Be32(pkt, s.x + 4)), pkt);
      }
    }
  }

  /** The labelled program keeps exactly the wanted packets. */
  lemma KeepsWanted(pkt: seq<Byte>)
    requires |pkt| < WORD
    ensures Run(FILTER, Labelled, 0, START, pkt) == if Wanted(pkt) then KEEP else 0
  {
    assert Run(FILTER, Labelled, 0, START, pkt) == On(0, START, pkt);
    hide On, Run, Be32;
    ReadsLength(pkt);
    if |pkt| >= 4 {
      var f := Le16(pkt, 2);
      var s := START.(a := f, x := f);
      KeepsManagement(s, pkt);
      if f < |pkt| && U8(pkt, f) % 16 != 0 {
        s := s.(a := U8(pkt, f) % 16);
        KeepsToDs(s, pkt);
        if f + 2 <= |pkt| {
          KeepsOther(s, pkt, f);
        }
      }
    }
  }

  lemma KeepsOther(s: State, pkt: seq<Byte>, f: nat)
    requires s.x == f < 0x1_0000 && f + 2 <= |pkt| < WORD
    ensures On(9, s, pkt) == if WantedOther(pkt, f) then KEEP else 0
  {
    hide On, Be32;
    var lo, hi := U8(pkt, f), U8(pkt, f + 1);
    KeepsToDs(s, pkt);
    var s12 := s.(a := lo % 16 * 0x100 + hi % 4);
    KeepsWds(s12, pkt);
    var s15 := s12.(a := hi % 4);
    MovesToLlc(s15, pkt);
    var llc := LlcStart(pkt, f);
    KeepsEmpty(s15.(a := llc, x := llc), pkt);
    KeepsEapol(s15.(a := |pkt|, x := llc), pkt);
  }

  lemma FilterShape()
    ensures |FILTER| == 29 && EndsInReturns(FILTER) && Assemblable(FILTER) && Stable(FILTER)
  {
    ShortProgramsAssemble(FILTER);
  }

  /** The program the driver attaches keeps exactly the wanted packets, whole. */
  lemma AttachedFilterLanguage(pkt: seq<Byte>)
    requires |pkt| < WORD
    ensures Run(Resolved(FILTER), Literal, 0, START, pkt) == if Wanted(pkt) then KEEP else 0
  {
    FilterShape();
    RewritePreservesRun(FILTER, 0, START, pkt);
    KeepsWanted(pkt);
  }
}
