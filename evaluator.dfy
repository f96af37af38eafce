/**
 * The imperative evaluator of eval.c: `eval` walks the code with a code
 * pointer (an offset here) and a tape iterator (the Cells object), reading
 * from a byte source and writing to a byte sink; `hgbf_memmax` and
 * `hgbf_eval` keep the memory limit and the memory used in two globals, here
 * the fields of an Evaluator.  Each method is proved to do what Machine.Step
 * and Machine.Run say.
 */
module Evaluator {
  import opened Bytes
  import opened Opcodes
  import opened Streams
  import opened Tape
  import opened Machine

  /** The code, the streams and the tape are separate objects. */
  ghost predicate Apart(code: array<byte>, input: ByteSource, output: ByteSink, cells: Cells)
    reads input, cells, cells.Repr
  {
    && input.Valid() && cells.Valid()
    && code !in cells.Repr && input !in cells.Repr && output !in cells.Repr
  }

  /** The machine state the objects stand for, with code pointer `pc`. */
  ghost function Current(pc: nat, input: ByteSource, output: ByteSink, cells: Cells): Machine.State
    reads input, output, cells
    requires input.Valid()
  {
    Machine.State(pc, cells.State(), input.Remaining(), output.written)
  }

  /** What one pass of the loop should have done, given the state it
      started from and what it returned. */
  ghost predicate Stepped(r: StepResult, stop: bool, o: Outcome, pc: nat, now: Machine.State)
  {
    match r
    case Continue(n) => !stop && n == now.(pc := pc)
    case Stop(o', l) => stop && o == o' && l == now.(pc := pc)
  }

  /** eval: run at most `fuel` passes of the dispatch loop from offset 0. */
  method Eval(code: array<byte>, input: ByteSource, output: ByteSink, cells: Cells, fuel: nat) returns (o: Outcome)
    requires Apart(code, input, output, cells)
    modifies input, output, cells, cells.Repr
    ensures Apart(code, input, output, cells) && fresh(cells.Repr - old(cells.Repr))
    ensures var r := Run(code[..], output.accepts, cells.max, old(Current(0, input, output, cells)), fuel);
      && o == r.0 && cells.State() == r.1.tape
      && input.Remaining() == r.1.input && output.written == r.1.output
  {
    ghost var goal := Run(code[..], output.accepts, cells.max, Current(0, input, output, cells), fuel);
    var pc: nat := 0;
    var k := fuel;
    var done := false;
    o := OutOfFuel;
    while !done && k > 0
      invariant Apart(code, input, output, cells) && fresh(cells.Repr - old(cells.Repr))
      invariant !done ==> o == OutOfFuel
      invariant !done ==> Run(code[..], output.accepts, cells.max, Current(pc, input, output, cells), k) == goal
      invariant done ==> goal == (o, Current(pc, input, output, cells))
      decreases k
    {
      var stop, o', pc' := Exec(code, input, output, cells, pc);
      pc, k := pc', k - 1;
      if stop {
        o, done := o', true;
      }
    }
  }

  /** One pass of the `while (true)` loop of eval. */
  method Exec(code: array<byte>, input: ByteSource, output: ByteSink, cells: Cells, pc: nat)
    returns (stop: bool, o: Outcome, pc': nat)
    requires Apart(code, input, output, cells)
    modifies input, output, cells, cells.Repr
    ensures Apart(code, input, output, cells) && fresh(cells.Repr - old(cells.Repr))
    ensures Stepped(Step(code[..], output.accepts, cells.max, old(Current(pc, input, output, cells))),
                    stop, o, pc', Current(pc', input, output, cells))
  {
    if pc >= code.Length {
      return true, OutsideCode, pc;
    }
    var op := code[pc];
    if op == NXT || op == PRV {
      stop, o, pc' := ExecMove(code, input, output, cells, pc);
    } else if op == INC || op == DEC {
      stop, o, pc' := ExecCell(code, input, output, cells, pc);
    } else if op == OUT || op == IN {
      stop, o, pc' := ExecStream(code, input, output, cells, pc);
    } else if op == JFZ || op == JBN {
      stop, o, pc' := ExecJump(code, input, output, cells, pc);
    } else if op == HLT {
      stop, o, pc' := true, Halted, pc;
    } else {
      stop, o, pc' := true, UnknownOpcode(op, pc), pc;
    }
  }

  /** NXT and PRV: cells_iter_next and cells_iter_prev. */
  method ExecMove(code: array<byte>, input: ByteSource, output: ByteSink, cells: Cells, pc: nat)
    returns (stop: bool, o: Outcome, pc': nat)
    requires Apart(code, input, output, cells)
    requires pc < code.Length && (code[pc] == NXT || code[pc] == PRV)
    modifies cells
    ensures Apart(code, input, output, cells) && fresh(cells.Repr - old(cells.Repr))
    ensures Stepped(Step(code[..], output.accepts, cells.max, old(Current(pc, input, output, cells))),
                    stop, o, pc', Current(pc', input, output, cells))
  {
    var ok;
    if code[pc] == NXT {
      ok := cells.Next();
    } else {
      ok := cells.Prev();
    }
    if ok {
      stop, o, pc' := false, OutOfFuel, pc + 1;
    } else {
      stop, o, pc' := true, OutOfMemory(cells.used, cells.max), pc;
    }
  }

  /** INC and DEC: a signed char incremented or decremented, wrapping. */
  method ExecCell(code: array<byte>, input: ByteSource, output: ByteSink, cells: Cells, pc: nat)
    returns (stop: bool, o: Outcome, pc': nat)
    requires Apart(code, input, output, cells)
    requires pc < code.Length && (code[pc] == INC || code[pc] == DEC)
    modifies cells.chunks[cells.chunk], cells`Model
    ensures Apart(code, input, output, cells) && cells.Repr == old(cells.Repr)
    ensures Stepped(Step(code[..], output.accepts, cells.max, old(Current(pc, input, output, cells))),
                    stop, o, pc', Current(pc', input, output, cells))
  {
    var v := cells.Read();
    if code[pc] == INC {
      cells.Write(Wrap(v as int + 1));
    } else {
      cells.Write(Wrap(v as int - 1));
    }
    stop, o, pc' := false, OutOfFuel, pc + 1;
  }

  /** OUT and IN: hgbf_ostream_write1 of the cell as an unsigned char, and
      hgbf_istream_read1 stored as a signed char. */
  method ExecStream(code: array<byte>, input: ByteSource, output: ByteSink, cells: Cells, pc: nat)
    returns (stop: bool, o: Outcome, pc': nat)
    requires Apart(code, input, output, cells)
    requires pc < code.Length && (code[pc] == OUT || code[pc] == IN)
    modifies input, output, cells.chunks[cells.chunk], cells`Model
    ensures Apart(code, input, output, cells) && cells.Repr == old(cells.Repr)
    ensures Stepped(Step(code[..], output.accepts, cells.max, old(Current(pc, input, output, cells))),
                    stop, o, pc', Current(pc', input, output, cells))
  {
    if code[pc] == OUT {
      var v := cells.Read();
      var r := output.Write1(ToUnsigned(v));
      if r != 0 {
        return true, OutputError, pc;
      }
    } else {
      var c := input.Read1();
      if c < 0 {
        return true, InputError, pc;
      }
      cells.Write(ToSigned(c));
    }
    stop, o, pc' := false, OutOfFuel, pc + 1;
  }

  /** JFZ and JBN: read the 32-bit operand, step over it, and jump forward
      over it on a zero cell or back by it on a nonzero one. */
  method ExecJump(code: array<byte>, input: ByteSource, output: ByteSink, cells: Cells, pc: nat)
    returns (stop: bool, o: Outcome, pc': nat)
    requires Apart(code, input, output, cells)
    requires pc < code.Length && (code[pc] == JFZ || code[pc] == JBN)
    ensures Stepped(Step(code[..], output.accepts, cells.max, Current(pc, input, output, cells)),
                    stop, o, pc', Current(pc', input, output, cells))
  {
    if pc + 5 > code.Length {
      return true, OutsideCode, pc;
    }
    var off := FromLittleEndian(code[pc + 1..pc + 5]);
    var after := pc + 5;
    var v := cells.Read();
    assert code[..][pc + 1..pc + 5] == code[pc + 1..pc + 5];
    if code[pc] == JFZ {
      stop, o, pc' := false, OutOfFuel, if v == 0 then after + off else after;
    } else if v == 0 {
      stop, o, pc' := false, OutOfFuel, after;
    } else if off > after {
      stop, o, pc' := true, OutsideCode, pc;
    } else {
      stop, o, pc' := false, OutOfFuel, after - off;
    }
  }

  /** The memory limit and the memory used of eval.c (`cells_mem_max`,
      `cells_mem_used`), and the two entry points that use them. */
  class Evaluator {
    var memMax: nat
    var memUsed: nat

    /** Both globals start at zero: no limit. */
    constructor ()
      ensures memMax == 0 && memUsed == 0
    {
      memMax, memUsed := 0, 0;
    }

    /** hgbf_memmax: 0 means no limit. */
    method SetMemoryLimit(size: nat)
      modifies this
      ensures memMax == size && memUsed == old(memUsed)
    {
      memMax := size;
    }

    /** hgbf_eval: a fresh tape charged from zero, then eval; every error,
        out of memory included, gives -1. */
    method Evaluate(code: array<byte>, input: ByteSource, output: ByteSink, fuel: nat) returns (ret: int, o: Outcome)
      requires input.Valid() && code.Length >= 1 && code[code.Length - 1] == HLT
      modifies this, input, output
      ensures input.Valid() && memMax == old(memMax)
      ensures var r := Run(code[..], output.accepts, memMax, Start(old(input.Remaining()), old(output.written)), fuel);
        && o == r.0 && ret == ExitCode(o) && memUsed == r.1.tape.used
        && input.Remaining() == r.1.input && output.written == r.1.output
    {
      memUsed := 0;
      var cells := new Cells(memMax);
      o := Eval(code, input, output, cells, fuel);
      memUsed := cells.used;
      ret := ExitCode(o);
    }
  }
}
