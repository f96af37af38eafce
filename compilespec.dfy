/**
 * What `compile` and `hgbf_code_compile` (code.c) compute, on values: the
 * scanner state, the stack of open-block positions and the bytes emitted so
 * far.  Runs of `>`, `<`, `+`, `-` become one repeated instruction; `[` emits
 * JFZ and four zero bytes whose position it pushes; `]` emits JBN and the
 * distance back to that position, and patches the same distance into the
 * JFZ operand.
 */
module CompileSpec {
  import opened Bytes
  import opened Opcodes
  import opened Scanner
  import opened Program
  import opened CodeBuffer

  predicate IsRunToken(t: Token)
  {
    t == TNxt || t == TPrv || t == TInc || t == TDec
  }

  /** The operand width of a run's repeated instruction: 2 for moves, 1 for
      arithmetic (`sizeof n_`). */
  function RunWidth(t: Token): nat
  {
    if t == TNxt || t == TPrv then 2 else 1
  }

  /** The number of states from `s` on that hold `t`, and the first state
      that does not (the `while (scanner_peek(...) == token)` loop). */
  function CountRun(s: Scan, t: Token): (r: (nat, Scan))
    requires t != TEnd
    ensures r.1.current != t && Measure(r.1) <= Measure(s)
    decreases Measure(s)
  {
    if s.current != t then (0, s)
    else
      var r := CountRun(Next(s), t);
      (r.0 + 1, r.1)
  }

  /** The bytes a run of `n` tokens `t` compiles to: the plain opcode for one,
      else the repeated opcode and the low bytes of `n`. */
  function RunCode(t: Token, n: nat): seq<byte>
    requires IsRunToken(t) && n >= 1
  {
    if n == 1 then [TokenCode(t)]
    else [TokenCode(t) + 9] + LittleEndian(n, RunWidth(t))
  }

  /** Every pushed position leaves room for the four operand bytes it names. */
  predicate BlocksInCode(blocks: seq<nat>, code: seq<byte>)
  {
    forall k :: 0 <= k < |blocks| ==> blocks[k] + 4 <= |code|
  }

  datatype Outcome = Done(code: seq<byte>, blocks: seq<nat>) | Unmatched(line: nat, col: nat)

  /** The bytes a `]` appends and then patches over the operand of the JFZ at
      `pos`: its distance from the JBN operand, truncated to 32 bits. */
  function CloseCode(code: seq<byte>, pos: nat): (r: seq<byte>)
    requires pos + 4 <= |code|
    ensures |r| == |code| + 5
  {
    var code1 := code + [JBN];
    var off := (|code1| - pos) % TWO32;
    Splice(code1 + LittleEndian(off, 4), pos, LittleEndian(off, 4))
  }

  /** Where one iteration of the loop of `compile` leaves it: at the next
      scanner state, open blocks and code, or stopped at an unmatched `]`. */
  datatype Move = Go(s: Scan, blocks: seq<nat>, code: seq<byte>) | Stuck(line: nat, col: nat)

  /** One iteration of the loop of `compile`, on a state holding a command. */
  function StepFrom(s: Scan, blocks: seq<nat>, code: seq<byte>): (m: Move)
    requires BlocksInCode(blocks, code) && s.current != TEnd
    ensures m.Go? ==> BlocksInCode(m.blocks, m.code) && Measure(m.s) < Measure(s)
  {
    var t := s.current;
    var s1 := Next(s);
    if IsRunToken(t) then
      var run := CountRun(s1, t);
      Go(run.1, blocks, code + RunCode(t, 1 + run.0))
    else if t == TOut then
      Go(s1, blocks, code + [OUT])
    else if t == TIn then
      Go(s1, blocks, code + [IN])
    else if t == TJfz then
      Go(s1, blocks + [|code| + 1], code + [JFZ, 0, 0, 0, 0])
    else if blocks == [] then
      Stuck(s1.line, s1.col)
    else
      var pos := blocks[|blocks| - 1];
      Go(s1, blocks[..|blocks| - 1], CloseCode(code, pos))
  }

  /** The main loop of `compile`, from scanner state `s`. */
  function CompileFrom(s: Scan, blocks: seq<nat>, code: seq<byte>): (r: Outcome)
    requires BlocksInCode(blocks, code)
    ensures r.Done? ==> BlocksInCode(r.blocks, r.code)
    decreases Measure(s)
  {
    if s.current == TEnd then Done(code, blocks)
    else
      match StepFrom(s, blocks, code)
      case Stuck(line, col) => Unmatched(line, col)
      case Go(s', blocks', code') => CompileFrom(s', blocks', code')
  }

  datatype CompileResult = Compiled(bytes: seq<byte>) | NoMatchingOpen(line: nat, col: nat) | NotClosed

  /** hgbf_code_compile: compile, reject a `[` left open, and end the code
      with HLT, so that accepted code meets the assertion of hgbf_eval. */
  function CodeCompile(source: seq<byte>): (r: CompileResult)
    ensures r.Compiled? ==> |r.bytes| >= 1 && r.bytes[|r.bytes| - 1] == HLT
  {
    match CompileFrom(Init(source), [], [])
    case Unmatched(line, col) => NoMatchingOpen(line, col)
    case Done(code, blocks) => if blocks != [] then NotClosed else Compiled(code + [HLT])
  }

  /** One iteration that does not stop leaves the outcome of the loop as it was. */
  lemma UnfoldGo(s: Scan, blocks: seq<nat>, code: seq<byte>, s': Scan, blocks': seq<nat>, code': seq<byte>)
    requires BlocksInCode(blocks, code) && s.current != TEnd && StepFrom(s, blocks, code) == Go(s', blocks', code')
    ensures BlocksInCode(blocks', code')
    ensures CompileFrom(s, blocks, code) == CompileFrom(s', blocks', code')
  {
  }

  /** One step of the loop, case by case: each command advances the scanner
      and appends its bytes. */
  lemma UnfoldRun(s: Scan, blocks: seq<nat>, code: seq<byte>, n: nat, s': Scan)
    requires BlocksInCode(blocks, code) && IsRunToken(s.current)
    requires n == 1 + CountRun(Next(s), s.current).0 && s' == CountRun(Next(s), s.current).1
    ensures Measure(s') < Measure(s) && BlocksInCode(blocks, code + RunCode(s.current, n))
    ensures CompileFrom(s, blocks, code) == CompileFrom(s', blocks, code + RunCode(s.current, n))
  {
    StepFromRun(s, blocks, code, n, s');
    UnfoldGo(s, blocks, code, s', blocks, code + RunCode(s.current, n));
  }

  lemma StepFromRun(s: Scan, blocks: seq<nat>, code: seq<byte>, n: nat, s': Scan)
    requires BlocksInCode(blocks, code) && IsRunToken(s.current)
    requires n == 1 + CountRun(Next(s), s.current).0 && s' == CountRun(Next(s), s.current).1
    ensures StepFrom(s, blocks, code) == Go(s', blocks, code + RunCode(s.current, n))
  {
  }

  lemma UnfoldOutIn(s: Scan, blocks: seq<nat>, code: seq<byte>)
    requires BlocksInCode(blocks, code) && (s.current == TOut || s.current == TIn)
    ensures Measure(Next(s)) < Measure(s)
    ensures CompileFrom(s, blocks, code) == CompileFrom(Next(s), blocks, code + [if s.current == TOut then OUT else IN])
  {
    UnfoldGo(s, blocks, code, Next(s), blocks, code + [if s.current == TOut then OUT else IN]);
  }

  lemma UnfoldOpen(s: Scan, blocks: seq<nat>, code: seq<byte>)
    requires BlocksInCode(blocks, code) && s.current == TJfz
    ensures Measure(Next(s)) < Measure(s)
    ensures BlocksInCode(blocks + [|code| + 1], code + [JFZ, 0, 0, 0, 0])
    ensures CompileFrom(s, blocks, code) == CompileFrom(Next(s), blocks + [|code| + 1], code + [JFZ, 0, 0, 0, 0])
  {
    UnfoldGo(s, blocks, code, Next(s), blocks + [|code| + 1], code + [JFZ, 0, 0, 0, 0]);
  }

  lemma UnfoldClose(s: Scan, blocks: seq<nat>, code: seq<byte>)
    requires BlocksInCode(blocks, code) && s.current == TJbn
    ensures Measure(Next(s)) < Measure(s)
    ensures blocks == [] ==> CompileFrom(s, blocks, code) == Unmatched(Next(s).line, Next(s).col)
    ensures blocks != [] ==> BlocksInCode(blocks[..|blocks| - 1], CloseCode(code, blocks[|blocks| - 1]))
    ensures blocks != [] ==>
      CompileFrom(s, blocks, code) == CompileFrom(Next(s), blocks[..|blocks| - 1], CloseCode(code, blocks[|blocks| - 1]))
  {
    if blocks != [] {
      UnfoldGo(s, blocks, code, Next(s), blocks[..|blocks| - 1], CloseCode(code, blocks[|blocks| - 1]));
    }
  }

}
