/**
 * The dispatch loop of `eval` (eval.c) on values: the code pointer as an
 * offset into the code, the tape, the input not yet read and the output
 * written so far.  Only the opcodes 0x00-0x08 have a case; every other byte,
 * the repeated opcodes 0x09-0x0c included, stops with "unknown opcode".
 */
module Machine {
  import opened Bytes
  import opened Opcodes
  import opened Streams
  import opened Tape

  /** How an evaluation ends: HLT (`return 0`), or one of the errors
      (`return -1` with the message recorded).  OutsideCode stands for the
      code pointer leaving the code, which C leaves undefined; OutOfFuel for
      a run longer than the step bound given. */
  datatype Outcome =
    | Halted
    | OutputError
    | InputError
    | UnknownOpcode(op: byte, at: nat)
    | OutOfMemory(used: nat, max: nat)
    | OutsideCode
    | OutOfFuel

  /** hgbf_eval's result: 0 on HLT, -1 on every error. */
  function ExitCode(o: Outcome): int
  {
    if o.Halted? then 0 else -1
  }

  datatype State = State(pc: nat, tape: Tape, input: seq<byte>, output: seq<byte>)

  datatype StepResult = Continue(next: State) | Stop(outcome: Outcome, last: State)

  /** Start of hgbf_eval: offset 0, a fresh tape, the input still to be
      read and what the sink already holds. */
  function Start(input: seq<byte>, written: seq<byte>): State
  {
    State(0, Init(), input, written)
  }

  /** The operand of a jump at `pc`: four bytes little-endian. */
  function JumpOperand(code: seq<byte>, pc: nat): nat
    requires pc + 5 <= |code|
  {
    FromLittleEndian(code[pc + 1..pc + 5])
  }

  /** One pass of the `while (true)` loop of eval, on the opcode at `pc`. */
  function Step(code: seq<byte>, accepts: (seq<byte>, byte) -> bool, max: nat, s: State): (r: StepResult)
    requires WellFormed(s.tape)
    ensures r.Continue? ==> WellFormed(r.next.tape)
  {
    if s.pc >= |code| then Stop(OutsideCode, s)
    else
      var op := code[s.pc];
      var t := s.tape;
      var s1 := s.(pc := s.pc + 1);
      if op == NXT then
        match Right(t, max)
        case Moved(t') => Continue(s1.(tape := t'))
        case NoMemory(u) => Stop(OutOfMemory(u, max), s)
      else if op == PRV then
        match Left(t, max)
        case Moved(t') => Continue(s1.(tape := t'))
        case NoMemory(u) => Stop(OutOfMemory(u, max), s)
      else if op == INC then Continue(s1.(tape := Set(t, Wrap(Get(t) + 1))))
      else if op == DEC then Continue(s1.(tape := Set(t, Wrap(Get(t) - 1))))
      else if op == OUT then
        var b := ToUnsigned(Get(t));
        if accepts(s.output, b) then Continue(s1.(output := s.output + [b])) else Stop(OutputError, s)
      else if op == IN then
        var c := ReadResult(s.input);
        if c < 0 then Stop(InputError, s)
        else Continue(s1.(tape := Set(t, ToSigned(c)), input := AfterRead(s.input)))
      else if op == JFZ || op == JBN then
        if s.pc + 5 > |code| then Stop(OutsideCode, s)
        else
          var off := JumpOperand(code, s.pc);
          var after := s.pc + 5;
          if op == JFZ then
            Continue(s.(pc := if Get(t) == 0 then after + off else after))
          else if Get(t) == 0 then Continue(s.(pc := after))
          else if off > after then Stop(OutsideCode, s)
          else Continue(s.(pc := after - off))
      else if op == HLT then Stop(Halted, s)
      else Stop(UnknownOpcode(op, s.pc), s)
  }

  /** At most `fuel` passes of the loop. */
  function Run(code: seq<byte>, accepts: (seq<byte>, byte) -> bool, max: nat, s: State, fuel: nat): (r: (Outcome, State))
    requires WellFormed(s.tape)
    ensures WellFormed(r.1.tape)
    decreases fuel
  {
    if fuel == 0 then (OutOfFuel, s)
    else
      match Step(code, accepts, max, s)
      case Continue(s') => Run(code, accepts, max, s', fuel - 1)
      case Stop(o, s') => (o, s')
  }

  /** Exactly the bytes above HLT stop with "unknown opcode": the repeated
      opcodes NXTn, PRVn, INCn and DECn that the compiler emits for every
      run of two or more commands have no case in eval. */
  lemma UnknownOpcodeExactly(code: seq<byte>, accepts: (seq<byte>, byte) -> bool, max: nat, s: State)
    requires WellFormed(s.tape) && s.pc < |code|
    ensures Step(code, accepts, max, s) == Stop(UnknownOpcode(code[s.pc], s.pc), s) <==> code[s.pc] > HLT
    ensures code[s.pc] in {NXTN, PRVN, INCN, DECN} ==> Step(code, accepts, max, s).Stop?
  {
  }

  /** A pass that stops changes nothing, since every error returns before
      anything is stored, and it halts only on HLT. */
  lemma StopChangesNothing(code: seq<byte>, accepts: (seq<byte>, byte) -> bool, max: nat, s: State)
    requires WellFormed(s.tape)
    ensures var r := Step(code, accepts, max, s);
      && (r.Stop? ==> r.last == s)
      && (r.Stop? && r.outcome == Halted <==> s.pc < |code| && code[s.pc] == HLT)
  {
  }

  /** An evaluation halts only at an HLT byte, and stops there. */
  lemma {:induction false} HaltsOnlyAtHlt(code: seq<byte>, accepts: (seq<byte>, byte) -> bool, max: nat, s: State, fuel: nat)
    requires WellFormed(s.tape)
    ensures var r := Run(code, accepts, max, s, fuel);
      r.0 == Halted ==> r.1.pc < |code| && code[r.1.pc] == HLT
    decreases fuel
  {
    if fuel > 0 {
      StopChangesNothing(code, accepts, max, s);
      var r := Step(code, accepts, max, s);
      if r.Continue? {
        HaltsOnlyAtHlt(code, accepts, max, r.next, fuel - 1);
      }
    }
  }

  /** INC and DEC change the current cell by one modulo 256 and nothing
      else, and go on with the next byte. */
  lemma IncDecWrap(code: seq<byte>, accepts: (seq<byte>, byte) -> bool, max: nat, s: State)
    requires WellFormed(s.tape) && s.pc < |code| && (code[s.pc] == INC || code[s.pc] == DEC)
    ensures var r := Step(code, accepts, max, s);
      && r.Continue? && r.next.pc == s.pc + 1
      && r.next.input == s.input && r.next.output == s.output
      && (Get(r.next.tape) - Get(s.tape) - (if code[s.pc] == INC then 1 else -1)) % 256 == 0
      && r.next.tape == Set(s.tape, Get(r.next.tape))
    ensures code[s.pc] == INC && Get(s.tape) == 127 ==> Get(Step(code, accepts, max, s).next.tape) == -128
    ensures code[s.pc] == DEC && Get(s.tape) == -128 ==> Get(Step(code, accepts, max, s).next.tape) == 127
  {
    SetGet(s.tape, Wrap(Get(s.tape) + 1));
    SetGet(s.tape, Wrap(Get(s.tape) - 1));
  }

  /** OUT writes the cell as an unsigned byte and fails exactly when the
      sink refuses it; IN fails exactly at the end of the input, and
      otherwise stores the byte read as a signed cell. */
  lemma OutIn(code: seq<byte>, accepts: (seq<byte>, byte) -> bool, max: nat, s: State)
    requires WellFormed(s.tape) && s.pc < |code|
    ensures code[s.pc] == OUT ==> var b := ToUnsigned(Get(s.tape));
      && (Step(code, accepts, max, s).Stop? <==> !accepts(s.output, b))
      && (accepts(s.output, b) ==> Step(code, accepts, max, s).next == s.(pc := s.pc + 1, output := s.output + [b]))
    ensures code[s.pc] == IN ==>
      && (Step(code, accepts, max, s) == Stop(InputError, s) <==> s.input == [])
      && (s.input != [] ==> Step(code, accepts, max, s).next == s.(pc := s.pc + 1, tape := Set(s.tape, ToSigned(s.input[0])), input := s.input[1..]))
  {
  }

  /** Every step keeps the memory accounting of the tape, and an evaluation
      runs out of memory only when the limit is set and one more chunk would
      exceed it. */
  lemma StepAccounts(code: seq<byte>, accepts: (seq<byte>, byte) -> bool, max: nat, s: State)
    requires WellFormed(s.tape) && Charged(s.tape) && WithinLimit(s.tape, max)
    ensures var r := Step(code, accepts, max, s);
      && (r.Continue? ==> Charged(r.next.tape) && WithinLimit(r.next.tape, max))
      && (r.Stop? ==> r.last == s)
      && (r.Stop? && r.outcome.OutOfMemory? ==> r.outcome == OutOfMemory(s.tape.used, max) && max != 0 && s.tape.used + CHUNK_BYTES > max)
  {
    RightAccounts(s.tape, max);
    LeftAccounts(s.tape, max);
  }

  lemma {:induction false} RunAccounts(code: seq<byte>, accepts: (seq<byte>, byte) -> bool, max: nat, s: State, fuel: nat)
    requires WellFormed(s.tape) && Charged(s.tape) && WithinLimit(s.tape, max)
    ensures var r := Run(code, accepts, max, s, fuel);
      && WellFormed(r.1.tape) && Charged(r.1.tape) && WithinLimit(r.1.tape, max)
      && (r.0.OutOfMemory? ==> r.0 == OutOfMemory(r.1.tape.used, max) && max != 0 && r.1.tape.used + CHUNK_BYTES > max)
    decreases fuel
  {
    if fuel > 0 {
      StepAccounts(code, accepts, max, s);
      match Step(code, accepts, max, s)
      case Continue(s') => RunAccounts(code, accepts, max, s', fuel - 1);
      case Stop(_, _) =>
    }
  }

  /** The memory charged by an evaluation is 128 bytes per chunk, at most the
      limit when one is set and the tape has grown. */
  lemma EvalAccounts(code: seq<byte>, accepts: (seq<byte>, byte) -> bool, max: nat, input: seq<byte>, written: seq<byte>, fuel: nat)
    ensures var r := Run(code, accepts, max, Start(input, written), fuel);
      && r.1.tape.used == CHUNK_BYTES * |r.1.tape.chunks|
      && (max != 0 && |r.1.tape.chunks| > 1 ==> r.1.tape.used <= max)
  {
    InitAccounts(max);
    RunAccounts(code, accepts, max, Start(input, written), fuel);
  }

  /** The output only grows: each step writes at most one byte after it. */
  lemma {:induction false} RunExtendsOutput(code: seq<byte>, accepts: (seq<byte>, byte) -> bool, max: nat, s: State, fuel: nat)
    requires WellFormed(s.tape)
    ensures var r := Run(code, accepts, max, s, fuel);
      |r.1.output| >= |s.output| && r.1.output[..|s.output|] == s.output
    decreases fuel
  {
    if fuel > 0 {
      match Step(code, accepts, max, s)
      case Continue(s') =>
        RunExtendsOutput(code, accepts, max, s', fuel - 1);
        var r := Run(code, accepts, max, s', fuel - 1);
        assert s'.output[..|s.output|] == s.output;
        assert r.1.output[..|s.output|] == r.1.output[..|s'.output|][..|s.output|];
      case Stop(_, _) =>
    }
  }
}
