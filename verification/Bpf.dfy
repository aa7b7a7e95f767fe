/** The classic BPF machine that runs a socket filter. */
module Bpf {
  import opened Bits

  const WORD := 0x1_0000_0000

  type U32 = x: int | 0 <= x < WORD

  /** `struct sock_filter`: a 16-bit opcode, two 8-bit jump offsets, a 32-bit operand. */
  datatype Insn = Insn(code: nat, jt: Byte, jf: Byte, k: U32)

  /** Instruction classes; 0 and 1 load A and X, 2 and 3 store them, 4 is arithmetic, 7 moves A and X. */
  const JMP := 5
  const RET := 6

  /** `BPF_JMP | BPF_JA`. */
  const JUMP_ALWAYS := 0x05

  const MEM_WORDS := 16

  /** The fields of an opcode: class, size, mode, operation, operand source. */
  function Class(code: nat): nat { code % 8 }
  function Size(code: nat): nat { code / 8 % 4 }
  function Mode(code: nat): nat { code / 32 % 8 }
  function Operation(code: nat): nat { code / 16 % 16 }
  predicate SourceX(code: nat) { code / 8 % 2 == 1 }

  predicate IsJump(i: Insn) { Class(i.code) == JMP }
  predicate IsReturn(i: Insn) { Class(i.code) == RET }
  predicate IsJumpAlways(i: Insn) { i.code == JUMP_ALWAYS }

  /** Accumulator, index register, scratch memory. */
  datatype State = State(a: U32, x: U32, mem: seq<U32>)

  const START := State(0, 0, seq(MEM_WORDS, _ => 0))

  /** An instruction either goes on or drops the packet (bad load, division by zero, bad opcode). */
  datatype Effect = Go(s: State) | Drop

  datatype Loaded = Value(v: U32) | OutOfBounds

  /** Packet loads are big-endian and bounds-checked; size 0 is a word, 1 a half-word, 2 a byte. */
  function LoadPacket(pkt: seq<Byte>, size: nat, off: nat): Loaded
  {
    if size == 0 && off + 4 <= |pkt| then Value(Be32(pkt, off))
    else if size == 1 && off + 2 <= |pkt| then Value(Be16(pkt, off))
    else if size == 2 && off + 1 <= |pkt| then Value(U8(pkt, off))
    else OutOfBounds
  }

  /** Arithmetic is modulo 2^32. */
  function Wrap(x: int): U32
  {
    x % WORD
  }

  function ShiftLeft(v: U32, n: nat): U32
    decreases n
  {
    if n == 0 then v else ShiftLeft(Wrap(v * 2), n - 1)
  }

  function Arithmetic(op: nat, a: U32, v: U32): Loaded
  {
    match op
    case 0 => Value(Wrap(a + v))
    case 1 => Value(Wrap(a - v))
    case 2 => Value(Wrap(a * v))
    case 3 => if v == 0 then OutOfBounds else Value(a / v)
    case 4 => Value(Wrap(Or(a, v)))
    case 5 => Value(And(a, v))
    case 6 => Value(ShiftLeft(a, v))
    case 7 => Value(Shr(a, v))
    case 8 => Value(Wrap(0 - a))
    case 9 => if v == 0 then OutOfBounds else Value(a % v)
    case 10 => Value(Wrap(Xor(a, v)))
    case _ => OutOfBounds
  }

  function LoadA(i: Insn, s: State, pkt: seq<Byte>): Loaded
  {
    match Mode(i.code)
    case 0 => Value(i.k)
    case 1 => LoadPacket(pkt, Size(i.code), i.k)
    case 2 => LoadPacket(pkt, Size(i.code), s.x + i.k)
    case 3 => if i.k < |s.mem| then Value(s.mem[i.k]) else OutOfBounds
    case 4 => Value(Wrap(|pkt|))
    case _ => OutOfBounds
  }

  function LoadX(i: Insn, s: State, pkt: seq<Byte>): Loaded
  {
    match Mode(i.code)
    case 0 => Value(i.k)
    case 3 => if i.k < |s.mem| then Value(s.mem[i.k]) else OutOfBounds
    case 4 => Value(Wrap(|pkt|))
    case 5 => if i.k < |pkt| then Value(4 * And(U8(pkt, i.k), 0x0F)) else OutOfBounds
    case _ => OutOfBounds
  }

  /** Any instruction but a jump or a return. */
  function Execute(i: Insn, s: State, pkt: seq<Byte>): Effect
  {
    match Class(i.code)
    case 0 => (match LoadA(i, s, pkt) case Value(v) => Go(s.(a := v)) case OutOfBounds => Drop)
    case 1 => (match LoadX(i, s, pkt) case Value(v) => Go(s.(x := v)) case OutOfBounds => Drop)
    case 2 => if i.k < |s.mem| then Go(s.(mem := s.mem[i.k := s.a])) else Drop
    case 3 => if i.k < |s.mem| then Go(s.(mem := s.mem[i.k := s.x])) else Drop
    case 4 =>
      (match Arithmetic(Operation(i.code), s.a, if SourceX(i.code) then s.x else i.k)
       case Value(v) => Go(s.(a := v))
       case OutOfBounds => Drop)
    case _ => if Operation(i.code) / 8 == 0 then Go(s.(x := s.a)) else Go(s.(a := s.x))
  }

  /** Whether a conditional jump takes its first branch. */
  predicate Taken(i: Insn, s: State)
  {
    var v := if SourceX(i.code) then s.x else i.k;
    match Operation(i.code)
    case 1 => s.a == v
    case 2 => s.a > v
    case 3 => s.a >= v
    case 4 => And(s.a, v) != 0
    case _ => false
  }

  function Verdict(i: Insn, s: State): U32
  {
    match Size(i.code)
    case 0 => i.k
    case 1 => s.x
    case 2 => s.a
    case _ => 0
  }

  /** The offset an instruction jumps by. */
  function Offset(i: Insn, s: State): nat
  {
    if IsJumpAlways(i) then i.k else if Taken(i, s) then i.jt else i.jf
  }

  /** How a jump offset is read: as an offset, or with PASS and FAIL as labels of the last two returns. */
  datatype Reading = Literal | Labelled

  const PASS := 0xFF
  const FAIL := 0xFE

  function Target(reading: Reading, len: nat, pc: nat, off: nat): int
  {
    if reading.Labelled? && off == PASS then len - 1
    else if reading.Labelled? && off == FAIL then len - 2
    else pc + 1 + off
  }

  /** The verdict on a packet: how many bytes of it to keep. A jump that leaves the program drops. */
  function Run(prog: seq<Insn>, reading: Reading, pc: nat, s: State, pkt: seq<Byte>): U32
    requires pc < |prog|
    decreases |prog| - pc
  {
    var i := prog[pc];
    if IsReturn(i) then Verdict(i, s)
    else if IsJump(i) then
      var t := Target(reading, |prog|, pc, Offset(i, s));
      if pc < t < |prog| then Run(prog, reading, t, s, pkt) else 0
    else
      match Execute(i, s, pkt)
      case Go(s') => if pc + 1 < |prog| then Run(prog, reading, pc + 1, s', pkt) else 0
      case Drop => 0
  }
}

/** The assembler pass of `add_monitor_filter` that turns PASS and FAIL into offsets. */
module BpfAssembler {
  import opened Bits
  import opened Bpf

  /** One 8-bit jump field of the instruction at `idx`; C truncates the stored difference. */
  function ResolvedField(len: nat, idx: nat, off: Byte): Byte
  {
    if off == PASS then (len - idx - 2) % 0x100
    else if off == FAIL then (len - idx - 3) % 0x100
    else off
  }

  function ResolvedOperand(len: nat, idx: nat, k: U32): U32
  {
    if k == PASS then (len - idx - 2) % WORD
    else if k == FAIL then (len - idx - 3) % WORD
    else k
  }

  function ResolvedInsn(len: nat, idx: nat, i: Insn): Insn
  {
    if !IsJump(i) then i
    else Insn(i.code, ResolvedField(len, idx, i.jt), ResolvedField(len, idx, i.jf),
              if IsJumpAlways(i) then ResolvedOperand(len, idx, i.k) else i.k)
  }

  function Resolved(prog: seq<Insn>): (r: seq<Insn>)
    ensures |r| == |prog|
  {
    seq(|prog|, idx requires 0 <= idx < |prog| => ResolvedInsn(|prog|, idx, prog[idx]))
  }

  /** The loop of `add_monitor_filter`; the program length is a 16-bit field. */
  method RewriteJumps(insns: array<Insn>)
    requires insns.Length < 0x1_0000
    modifies insns
    ensures insns[..] == Resolved(old(insns[..]))
  {
    var idx := 0;
    while idx < insns.Length
      invariant 0 <= idx <= insns.Length
      invariant forall j | 0 <= j < idx :: insns[j] == ResolvedInsn(insns.Length, j, old(insns[j]))
      invariant forall j | idx <= j < insns.Length :: insns[j] == old(insns[j])
    {
      var insn := insns[idx];
      if Class(insn.code) == JMP {
        if insn.code == JUMP_ALWAYS {
          if insn.k == PASS {
            insns[idx] := insns[idx].(k := (insns.Length - idx - 2) % WORD);
          } else if insn.k == FAIL {
            insns[idx] := insns[idx].(k := (insns.Length - idx - 3) % WORD);
          }
        }
        if insn.jt == PASS {
          insns[idx] := insns[idx].(jt := (insns.Length - idx - 2) % 0x100);
        } else if insn.jt == FAIL {
          insns[idx] := insns[idx].(jt := (insns.Length - idx - 3) % 0x100);
        }
        if insn.jf == PASS {
          insns[idx] := insns[idx].(jf := (insns.Length - idx - 2) % 0x100);
        } else if insn.jf == FAIL {
          insns[idx] := insns[idx].(jf := (insns.Length - idx - 3) % 0x100);
        }
      }
      idx := idx + 1;
    }
  }

  /** `keep these last two statements`: return 0, then return all ones. */
  predicate EndsInReturns(prog: seq<Insn>)
  {
    && 2 <= |prog| < 0x1_0000
    && prog[|prog| - 2] == Insn(0x06, 0, 0, 0)
    && prog[|prog| - 1] == Insn(0x06, 0, 0, WORD - 1)
  }

  /** The offset of a label fits the 8 bits of a jump field. */
  predicate FieldFits(len: nat, idx: nat, off: Byte)
  {
    && (off == PASS ==> len - idx - 2 <= 0xFF)
    && (off == FAIL ==> len - idx - 3 <= 0xFF)
  }

  /** Every conditional jump with a label is near enough to the end of the program. */
  predicate Assemblable(prog: seq<Insn>)
  {
    forall idx | 0 <= idx < |prog| && IsJump(prog[idx]) && !IsJumpAlways(prog[idx]) ::
      FieldFits(|prog|, idx, prog[idx].jt) && FieldFits(|prog|, idx, prog[idx].jf)
  }

  /** The offsets of a jump still lead where its labels pointed. */
  predicate TargetsKept(len: nat, idx: nat, i: Insn)
  {
    var r := ResolvedInsn(len, idx, i);
    if IsJumpAlways(i) then Target(Literal, len, idx, r.k) == Target(Labelled, len, idx, i.k)
    else && Target(Literal, len, idx, r.jt) == Target(Labelled, len, idx, i.jt)
         && Target(Literal, len, idx, r.jf) == Target(Labelled, len, idx, i.jf)
  }

  /** The rewritten jumps lead where the labels pointed exactly when no offset is truncated. */
  lemma TargetsKeptIff(prog: seq<Insn>)
    requires EndsInReturns(prog)
    ensures Assemblable(prog) <==>
            forall idx | 0 <= idx < |prog| && IsJump(prog[idx]) :: TargetsKept(|prog|, idx, prog[idx])
  {
    forall idx | 0 <= idx < |prog| && IsJump(prog[idx])
      ensures TargetsKept(|prog|, idx, prog[idx]) <==>
              IsJumpAlways(prog[idx]) ||
              (FieldFits(|prog|, idx, prog[idx].jt) && FieldFits(|prog|, idx, prog[idx].jf))
    {
      assert idx + 3 <= |prog|;
    }
  }

  /**
   * The pass preserves meaning: from any instruction, in any state, on any packet, the rewritten
   * program gives the verdict the labelled program has.
   */
  lemma {:induction false} RewritePreservesRun(prog: seq<Insn>, pc: nat, s: State, pkt: seq<Byte>)
    requires EndsInReturns(prog) && Assemblable(prog) && pc < |prog|
    ensures Run(Resolved(prog), Literal, pc, s, pkt) == Run(prog, Labelled, pc, s, pkt)
    decreases |prog| - pc
  {
    var i := prog[pc];
    assert Resolved(prog)[pc] == ResolvedInsn(|prog|, pc, i);
    if IsReturn(i) {
    } else if IsJump(i) {
      TargetsKeptIff(prog);
      assert TargetsKept(|prog|, pc, i);
      var t := Target(Labelled, |prog|, pc, Offset(i, s));
      assert Target(Literal, |prog|, pc, Offset(Resolved(prog)[pc], s)) == t;
      if pc < t < |prog| {
        RewritePreservesRun(prog, t, s, pkt);
      }
    } else {
      var e := Execute(i, s, pkt);
      if e.Go? && pc + 1 < |prog| {
        RewritePreservesRun(prog, pc + 1, e.s, pkt);
      }
    }
  }

  /** Every offset a jump can take is a label or stays inside the program. */
  predicate InRange(prog: seq<Insn>)
  {
    forall idx | 0 <= idx < |prog| && IsJump(prog[idx]) ::
      var i := prog[idx];
      if IsJumpAlways(i) then Target(Labelled, |prog|, idx, i.k) < |prog|
      else Target(Labelled, |prog|, idx, i.jt) < |prog| && Target(Labelled, |prog|, idx, i.jf) < |prog|
  }

  /** After the pass every jump, taken in any state, lands forward and inside the program. */
  lemma RewrittenJumpsLandInside(prog: seq<Insn>, idx: nat, s: State)
    requires EndsInReturns(prog) && Assemblable(prog) && InRange(prog)
    requires idx < |prog| && IsJump(prog[idx])
    ensures var r := Resolved(prog);
            IsJump(r[idx]) && idx < Target(Literal, |prog|, idx, Offset(r[idx], s)) < |prog|
  {
    TargetsKeptIff(prog);
    assert TargetsKept(|prog|, idx, prog[idx]);
    assert idx + 3 <= |prog|;
  }

  /** The labels of a jump do not resolve to a number that is itself the other label. */
  predicate StableAt(len: nat, idx: nat, i: Insn)
  {
    var toPass, toFail := len - idx - 2, len - idx - 3;
    && (i.jt == PASS || i.jf == PASS ==> toPass % 0x100 != FAIL)
    && (i.jt == FAIL || i.jf == FAIL ==> toFail % 0x100 != PASS)
    && (IsJumpAlways(i) && i.k == PASS ==> toPass != FAIL)
    && (IsJumpAlways(i) && i.k == FAIL ==> toFail != PASS)
  }

  predicate Stable(prog: seq<Insn>)
  {
    forall idx | 0 <= idx < |prog| && IsJump(prog[idx]) :: StableAt(|prog|, idx, prog[idx])
  }

  lemma ResolvesTwiceIff(len: nat, idx: nat, i: Insn)
    requires idx + 3 <= len < 0x1_0000 && IsJump(i)
    ensures ResolvedInsn(len, idx, ResolvedInsn(len, idx, i)) == ResolvedInsn(len, idx, i) <==> StableAt(len, idx, i)
  {
  }

  /** Rewriting twice equals rewriting once exactly for stable programs. */
  lemma RewriteTwiceIff(prog: seq<Insn>)
    requires EndsInReturns(prog)
    ensures Resolved(Resolved(prog)) == Resolved(prog) <==> Stable(prog)
  {
    var r := Resolved(prog);
    forall idx | 0 <= idx < |prog|
      ensures Resolved(r)[idx] == r[idx] <==> (IsJump(prog[idx]) ==> StableAt(|prog|, idx, prog[idx]))
    {
      if IsJump(prog[idx]) {
        assert idx + 3 <= |prog|;
        ResolvesTwiceIff(|prog|, idx, prog[idx]);
      }
    }
    hide StableAt, ResolvedInsn, IsJump;
    if Stable(prog) {
      assert Resolved(r) == r;
    }
  }

  /** A program whose length fits a byte is always assemblable and stable. */
  lemma ShortProgramsAssemble(prog: seq<Insn>)
    requires EndsInReturns(prog) && |prog| <= 0xFF
    ensures Assemblable(prog) && Stable(prog)
  {
    forall idx | 0 <= idx < |prog| && IsJump(prog[idx])
      ensures idx + 3 <= |prog|
    {
    }
  }

  /** A program one jump field cannot span: its first test always passes. */
  const LONG_PROGRAM := [Insn(0x15, PASS, PASS, 0)] + seq(297, _ => Insn(0x06, 0, 0, 0))
                        + [Insn(0x06, 0, 0, 0), Insn(0x06, 0, 0, WORD - 1)]

  /** The truncation is real: the labelled program keeps every packet, the rewritten one none. */
  lemma LongProgramLosesItsLabel(pkt: seq<Byte>)
    ensures EndsInReturns(LONG_PROGRAM) && !Assemblable(LONG_PROGRAM)
    ensures Run(LONG_PROGRAM, Labelled, 0, START, pkt) == WORD - 1
    ensures Run(Resolved(LONG_PROGRAM), Literal, 0, START, pkt) == 0
  {
    var p, r := LONG_PROGRAM, Resolved(LONG_PROGRAM);
    assert |p| == 300 && p[0] == Insn(0x15, PASS, PASS, 0) && p[43] == Insn(0x06, 0, 0, 0);
    assert r[0] == Insn(0x15, 42, 42, 0) && r[43] == p[43];
    assert Run(r, Literal, 43, START, pkt) == 0;
    assert Run(p, Labelled, 299, START, pkt) == WORD - 1;
  }
}
