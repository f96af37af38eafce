/**
 * What evaluating compiled code does with its jumps: for every pair of
 * brackets, JFZ on a zero cell lands one byte past the operand of its JBN,
 * and JBN on a nonzero cell lands one byte past the operand of its JFZ.
 * Hence the code pointer of compiled code only ever rests on instruction
 * boundaries, and evaluation of compiled code stops only at HLT, on an I/O
 * or memory error, or on a repeated opcode (for which eval has no case).
 */
module RunTheorems {
  import opened Bytes
  import opened Opcodes
  import opened Program
  import opened Brackets
  import Tape
  import opened Machine
  import CompileSpec
  import CompileTheorems
  import CompileProof
  import Scanner

  /** What the compiler guarantees of the instructions it emits before HLT,
      with the code short enough for its 32-bit jump operands. */
  ghost predicate FromCompiler(ins: seq<Instr>)
  {
    Balanced(ins) && Linked(ins) && AllWellFormed(ins + [Hlt]) && |EncodeAll(ins + [Hlt])| <= TWO32
  }

  /** The outcomes an evaluation of compiled code can have. */
  predicate CompiledOutcome(o: Outcome)
  {
    !o.OutsideCode? && (o.UnknownOpcode? ==> NXTN <= o.op <= DECN)
  }

  /** Instruction `k` in the bytes: its opcode at its address, its operand
      after it. */
  lemma InstrAt(ins: seq<Instr>, k: nat)
    requires AllWellFormed(ins) && k < |ins|
    ensures Addr(ins, k + 1) == Addr(ins, k) + 1 + Width(ins[k]) <= |EncodeAll(ins)|
    ensures EncodeAll(ins)[Addr(ins, k)] == OpcodeOf(ins[k])
    ensures Width(ins[k]) == 4 ==> JumpOperand(EncodeAll(ins), Addr(ins, k)) == OperandOf(ins[k])
  {
    DecodeProgramAt(ins, k);
    EncodeAllAt(ins, k);
    DecodedParts(EncodeAll(ins), Addr(ins, k), ins[k], Addr(ins, k + 1));
  }

  /** What an instruction decoded at `p` says about the bytes there. */
  lemma DecodedParts(code: seq<byte>, p: nat, x: Instr, next: nat)
    requires p < |code| && DecodeAt(code, p) == Ok(x, next)
    ensures code[p] == OpcodeOf(x) && next == p + 1 + Width(x) <= |code|
    ensures Width(x) == 4 ==> JumpOperand(code, p) == OperandOf(x)
  {
    WidthIsTableWidth(x);
  }

  lemma {:induction false} AddrMonotone(ins: seq<Instr>, k: nat, l: nat)
    requires k <= l <= |ins|
    ensures Addr(ins, k) <= Addr(ins, l)
  {
    assert ins[..l] == ins[..k] + ins[k..l];
    EncodeAllSplit(ins[..k], ins[k..l]);
  }

  /** The jumps of a pair: on a zero cell both go to the instruction after
      the JBN, on a nonzero cell both go to the instruction after the JFZ. */
  lemma JumpTargets(ins: seq<Instr>, i: nat, j: nat, accepts: (seq<byte>, byte) -> bool, max: nat, s: State)
    requires FromCompiler(ins) && Matches(ins, i, j) && Tape.WellFormed(s.tape)
    ensures var prog := ins + [Hlt];
      var target := if Tape.Get(s.tape) == 0 then Addr(prog, j + 1) else Addr(prog, i + 1);
      && (s.pc == Addr(prog, i) ==> Step(EncodeAll(prog), accepts, max, s) == Continue(s.(pc := target)))
      && (s.pc == Addr(prog, j) ==> Step(EncodeAll(prog), accepts, max, s) == Continue(s.(pc := target)))
  {
    assert PairLinked(ins, i, j);
    LinkedJump(ins, i, j, accepts, max, s);
  }

  lemma LinkedJump(ins: seq<Instr>, i: nat, j: nat, accepts: (seq<byte>, byte) -> bool, max: nat, s: State)
    requires AllWellFormed(ins + [Hlt]) && |EncodeAll(ins + [Hlt])| <= TWO32
    requires i < j < |ins| && ins[i].Jfz? && ins[j].Jbn? && PairLinked(ins, i, j)
    requires Tape.WellFormed(s.tape)
    ensures var prog := ins + [Hlt];
      var target := if Tape.Get(s.tape) == 0 then Addr(prog, j + 1) else Addr(prog, i + 1);
      && (s.pc == Addr(prog, i) ==> Step(EncodeAll(prog), accepts, max, s) == Continue(s.(pc := target)))
      && (s.pc == Addr(prog, j) ==> Step(EncodeAll(prog), accepts, max, s) == Continue(s.(pc := target)))
  {
    var prog := ins + [Hlt];
    PairBytes(ins, i, j);
    PrefixAddr(ins, [Hlt], i);
    PrefixAddr(ins, [Hlt], j);
    DistanceExact(ins, i, j);
    var code, a, b := EncodeAll(prog), Addr(prog, i), Addr(prog, j);
    assert OperandOf(ins[i]) == b - a && OperandOf(ins[j]) == b - a;
    JumpStep(code, a, b, Addr(prog, i + 1), Addr(prog, j + 1), accepts, max, s);
  }

  /** The bytes of a pair: JFZ and JBN at their addresses, followed by their
      operands. */
  lemma PairBytes(ins: seq<Instr>, i: nat, j: nat)
    requires AllWellFormed(ins + [Hlt]) && i < j < |ins| && ins[i].Jfz? && ins[j].Jbn?
    ensures Addr(ins + [Hlt], i) + 5 == Addr(ins + [Hlt], i + 1) <= Addr(ins + [Hlt], j)
    ensures Addr(ins + [Hlt], j) + 5 == Addr(ins + [Hlt], j + 1) <= |EncodeAll(ins + [Hlt])|
    ensures EncodeAll(ins + [Hlt])[Addr(ins + [Hlt], i)] == JFZ
    ensures EncodeAll(ins + [Hlt])[Addr(ins + [Hlt], j)] == JBN
    ensures JumpOperand(EncodeAll(ins + [Hlt]), Addr(ins + [Hlt], i)) == OperandOf(ins[i])
    ensures JumpOperand(EncodeAll(ins + [Hlt]), Addr(ins + [Hlt], j)) == OperandOf(ins[j])
  {
    var full := ins + [Hlt];
    assert full[i] == ins[i] && full[j] == ins[j];
    InstrAt(full, i);
    InstrAt(full, j);
    AddrMonotone(full, i + 1, j);
  }

  /** The distance of a pair in code shorter than 2^32 is not truncated. */
  lemma DistanceExact(ins: seq<Instr>, i: nat, j: nat)
    requires i <= j <= |ins| && Addr(ins, j) < TWO32
    ensures Distance(ins, i, j) == Addr(ins, j) - Addr(ins, i)
  {
    AddrMonotone(ins, i, j);
    DivModUnique(Addr(ins, j) - Addr(ins, i), TWO32, 0, Addr(ins, j) - Addr(ins, i));
  }

  /** eval on a JFZ at `a` and a JBN at `b` whose operands are both `b - a`. */
  lemma JumpStep(code: seq<byte>, a: nat, b: nat, a': nat, b': nat, accepts: (seq<byte>, byte) -> bool, max: nat, s: State)
    requires a' == a + 5 <= b && b' == b + 5 <= |code| && code[a] == JFZ && code[b] == JBN
    requires JumpOperand(code, a) == b - a && JumpOperand(code, b) == b - a
    requires Tape.WellFormed(s.tape)
    ensures var target := if Tape.Get(s.tape) == 0 then b' else a';
      && (s.pc == a ==> Step(code, accepts, max, s) == Continue(s.(pc := target)))
      && (s.pc == b ==> Step(code, accepts, max, s) == Continue(s.(pc := target)))
  {
  }

  /** From an instruction boundary, one step either stops with an outcome
      compiled code may have or reaches another boundary. */
  lemma StepAtBoundary(ins: seq<Instr>, k: nat, accepts: (seq<byte>, byte) -> bool, max: nat, s: State)
    returns (k': nat)
    requires FromCompiler(ins) && k <= |ins| && s.pc == Addr(ins + [Hlt], k) && Tape.WellFormed(s.tape)
    ensures var r := Step(EncodeAll(ins + [Hlt]), accepts, max, s);
      && (r.Continue? ==> k' <= |ins| && r.next.pc == Addr(ins + [Hlt], k'))
      && (r.Stop? ==> CompiledOutcome(r.outcome))
  {
    var full := ins + [Hlt];
    InstrAt(full, k);
    if k < |ins| && (ins[k].Jfz? || ins[k].Jbn?) {
      var i, j := Partner(ins, k);
      k' := JumpAtBoundary(ins, k, i, j, accepts, max, s);
    } else {
      k' := k + 1;
    }
  }

  /** The pair a jump of a compiled program belongs to. */
  lemma Partner(ins: seq<Instr>, k: nat) returns (i: nat, j: nat)
    requires Balanced(ins) && Linked(ins) && k < |ins| && (ins[k].Jfz? || ins[k].Jbn?)
    ensures Matches(ins, i, j) && PairLinked(ins, i, j)
    ensures ins[k].Jfz? ==> i == k
    ensures ins[k].Jbn? ==> j == k
  {
    if ins[k].Jfz? {
      i := k;
      j := OpenHasClose(ins, k);
    } else {
      j := k;
      i := CloseHasOpen(ins, k);
    }
  }

  lemma JumpAtBoundary(ins: seq<Instr>, k: nat, i: nat, j: nat, accepts: (seq<byte>, byte) -> bool, max: nat, s: State)
    returns (k': nat)
    requires AllWellFormed(ins + [Hlt]) && |EncodeAll(ins + [Hlt])| <= TWO32
    requires i < j < |ins| && ins[i].Jfz? && ins[j].Jbn? && PairLinked(ins, i, j) && (k == i || k == j)
    requires s.pc == Addr(ins + [Hlt], k) && Tape.WellFormed(s.tape)
    ensures var r := Step(EncodeAll(ins + [Hlt]), accepts, max, s);
      r.Continue? && k' <= |ins| && r.next.pc == Addr(ins + [Hlt], k')
  {
    LinkedJump(ins, i, j, accepts, max, s);
    k' := if Tape.Get(s.tape) == 0 then j + 1 else i + 1;
  }

  lemma {:induction false} RunStaysInCode(ins: seq<Instr>, k: nat, accepts: (seq<byte>, byte) -> bool, max: nat, s: State, fuel: nat)
    requires FromCompiler(ins) && k <= |ins| && s.pc == Addr(ins + [Hlt], k) && Tape.WellFormed(s.tape)
    ensures CompiledOutcome(Run(EncodeAll(ins + [Hlt]), accepts, max, s, fuel).0)
    decreases fuel
  {
    if fuel > 0 {
      var k' := StepAtBoundary(ins, k, accepts, max, s);
      var r := Step(EncodeAll(ins + [Hlt]), accepts, max, s);
      if r.Continue? {
        RunStaysInCode(ins, k', accepts, max, r.next, fuel - 1);
      }
    }
  }

  /** Code the compiler accepts never sends the code pointer outside the
      code, and the only opcodes it can stop on as unknown are the repeated
      ones. */
  lemma CompiledCodeStaysInside(source: seq<byte>, accepts: (seq<byte>, byte) -> bool, max: nat,
                                input: seq<byte>, written: seq<byte>, fuel: nat)
    requires CompileSpec.CodeCompile(source).Compiled? && |CompileSpec.CodeCompile(source).bytes| <= TWO32
    ensures CompiledOutcome(Run(CompileSpec.CodeCompile(source).bytes, accepts, max, Start(input, written), fuel).0)
  {
    var ins := CompileTheorems.CompiledProgram(source);
    assert (ins + [Hlt])[..0] == [];
    RunStaysInCode(ins, 0, accepts, max, Start(input, written), fuel);
  }

  /** "++" compiles to INCn 2 and HLT, and evaluating it stops at once on the
      unknown opcode 0x0b at offset 0. */
  lemma DoubleIncrementFails(accepts: (seq<byte>, byte) -> bool, max: nat, input: seq<byte>, written: seq<byte>)
    ensures CompileSpec.CodeCompile([43, 43]) == CompileSpec.Compiled([INCN, 2, HLT])
    ensures Run([INCN, 2, HLT], accepts, max, Start(input, written), 1) == (UnknownOpcode(INCN, 0), Start(input, written))
  {
    DoubleIncrementCompiles();
  }

  lemma DoubleIncrementCompiles()
    ensures CompileSpec.CodeCompile([43, 43]) == CompileSpec.Compiled([INCN, 2, HLT])
  {
    var source: seq<byte> := [43, 43];
    DoubleIncrementAccepted();
    var ins := CompileTheorems.CompiledProgram(source);
    OnlyInstruction(ins, IncN(2));
    EncodeDoubleIncrement();
  }

  /** A program whose cleared form is one instruction with no operand to
      clear is that instruction. */
  lemma OnlyInstruction(ins: seq<Instr>, x: Instr)
    requires Erase(ins) == [x] && !x.Jfz? && !x.Jbn?
    ensures ins == [x]
  {
    assert |ins| == 1 && EraseOne(ins[0]) == x;
  }

  lemma DoubleIncrementAccepted()
    ensures CompileSpec.CodeCompile([43, 43]).Compiled?
    ensures Scanner.TEnd !in Scanner.Commands([43, 43])
    ensures CompileProof.Translate(Scanner.Commands([43, 43])) == [IncN(2)]
  {
    var source: seq<byte> := [43, 43];
    assert source == seq(2, _ => '+' as byte);
    CompileTheorems.CommandsOfRepeat('+' as byte, 2);
    CompileTheorems.TranslateSingleRun(Scanner.TInc, 2);
    CompileProof.BalancedSingle(IncN(2));
    CompileTheorems.CompileVerdict(source);
  }

  lemma EncodeDoubleIncrement()
    ensures EncodeAll([IncN(2), Hlt]) == [INCN, 2, HLT]
  {
    EncodeAllSnoc([], IncN(2));
    assert [] + [IncN(2)] == [IncN(2)];
    EncodeAllSnoc([IncN(2)], Hlt);
  }
}
