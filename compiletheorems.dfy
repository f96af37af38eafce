/**
 * Theorems about `hgbf_code_compile` as a whole: which scripts it rejects
 * and why, what the code it returns decodes to, where it reports an
 * unmatched `]`, and what repeated commands become.
 */
module CompileTheorems {
  import opened Bytes
  import opened Opcodes
  import opened Scanner
  import opened Program
  import opened CompileSpec
  import opened Brackets
  import opened CompileProof

  lemma EmittedNothing()
    ensures Emitted([], [], [], [])
  {
    BalancedEmpty();
  }

  /** Running the compile loop over a whole script from an empty buffer. */
  lemma {:induction false} CompileWhole(source: seq<byte>) returns (ins: seq<Instr>, opens: seq<nat>)
    ensures Finishes(Commands(source), CompileFrom(Init(source), [], []), ins, opens)
  {
    var T := Commands(source);
    ScannerYieldsCommands(source);
    EmittedNothing();
    assert Erase([]) + Translate(T) == Translate(T);
    ins, opens := CompileFromCorrect(T, Init(source), [], [], [], []);
  }

  /** The compiler rejects a script with "no matching `['" exactly when its
      brackets close more than they open at some point, with "`[' is not
      closed" exactly when they never do but end open, and accepts it
      exactly when they are balanced. */
  lemma {:induction false} CompileVerdict(source: seq<byte>)
    ensures var tr := Translate(Commands(source));
      && (CodeCompile(source).NoMatchingOpen? <==> !NonNegative(tr))
      && (CodeCompile(source).NotClosed? <==> NonNegative(tr) && Depth(tr) > 0)
      && (CodeCompile(source).Compiled? <==> Balanced(tr))
  {
    var tr := Translate(Commands(source));
    var ins, opens := CompileWhole(source);
    var r := CompileFrom(Init(source), [], []);
    if r.Done? {
      LayeredDepth(ins, opens);
      EraseErased(ins);
      SameShapeNonNegative(tr, ins);
      SameShape(tr, ins);
    }
  }

  /** The code of an accepted script: the encoding of its translation with
      every pair of jumps linked, then HLT; the dump lists exactly those
      instructions. */
  lemma {:induction false} CompiledProgram(source: seq<byte>) returns (ins: seq<Instr>)
    requires CodeCompile(source).Compiled?
    ensures Erase(ins) == Translate(Commands(source))
    ensures Balanced(ins) && Linked(ins) && AllWellFormed(ins + [Hlt])
    ensures CodeCompile(source).bytes == EncodeAll(ins + [Hlt])
    ensures DecodeFrom(CodeCompile(source).bytes, 0) == (ins + [Hlt], Completed)
  {
    var opens;
    ins, opens := CompileWhole(source);
    EncodeAllSnoc(ins, Hlt);
    assert AllWellFormed(ins + [Hlt]);
    DecodeProgram(ins + [Hlt]);
  }

  /** A `]` with no open block is reported at the position the scanner has
      after reading it AND the next command: one token late. */
  lemma UnmatchedReportedLate(s: Scan, code: seq<byte>)
    requires s.current == TJbn
    ensures CompileFrom(s, [], code) == Unmatched(Next(s).line, Next(s).col)
    ensures var consumed := s.rest[..|s.rest| - |Next(s).rest|];
      && (Next(s).current != TEnd ==> Pos(Next(s).line, Next(s).col) == After(Pos(s.line, s.col), consumed))
      && (Next(s).current == TEnd ==> Next(s).line == After(Pos(s.line, s.col), s.rest).line)
  {
    UnfoldClose(s, [], code);
    AdvancePosition(s.rest, s.line, s.col);
  }

  /** "]\n\n+": the `]` is at line 1, column 1, but the error names line 3,
      column 1, where the `+` after it is. */
  lemma LateErrorExample()
    ensures Init([93, 10, 10, 43]) == Scan(TJbn, [10, 10, 43], 1, 1)
    ensures CodeCompile([93, 10, 10, 43]) == NoMatchingOpen(3, 1)
  {
    var s := Init([93, 10, 10, 43]);
    assert s == Scan(TJbn, [10, 10, 43], 1, 1);
    AdvanceSkips([10, 10, 43], 1, 1);
    assert [10, 10, 43][1..] == [10, 43];
    AdvanceSkips([10, 43], 2, 0);
    assert [10, 43][1..] == [43];
    assert Next(s) == Scan(TInc, [], 3, 1);
    UnmatchedReportedLate(s, []);
  }

  /** A run of `n` equal commands alone: its count modulo 2^16 (moves) or
      2^8 (arithmetic). */
  lemma {:induction false} TranslateSingleRun(t: Token, n: nat)
    requires IsRunToken(t) && n >= 1
    ensures TEnd !in seq(n, _ => t)
    ensures Translate(seq(n, _ => t)) == [RunInstr(t, n)]
  {
    var ts := seq(n, _ => t);
    assert RunLength(ts, t) == n;
    assert ts[n..] == [];
  }

  /** The count of a run wraps in its operand: 256 `+` compile to INCn 0 and
      65536 `>` to NXTn 0 (on which eval, having no case for the repeated
      opcodes, would stop). */
  lemma RunCountWraps()
    ensures RunInstr(TInc, 256) == IncN(0) && RunInstr(TDec, 256) == DecN(0)
    ensures RunInstr(TNxt, 65536) == NxtN(0) && RunInstr(TPrv, 65536) == PrvN(0)
  {
  }

  /** The largest count of a run that its operand holds exactly. */
  function RunLimit(t: Token): nat
  {
    if t == TNxt || t == TPrv then 0x1_0000 else 0x100
  }

  /** The tokens an instruction stands for: a repeated instruction is its
      count of copies of its command. */
  function ExpandOne(x: Instr): seq<Token>
  {
    match x
    case Nxt => [TNxt] case Prv => [TPrv] case Inc => [TInc] case Dec => [TDec]
    case Out => [TOut] case In => [TIn] case Jfz(_) => [TJfz] case Jbn(_) => [TJbn]
    case Hlt => []
    case NxtN(n) => seq(n, _ => TNxt) case PrvN(n) => seq(n, _ => TPrv)
    case IncN(n) => seq(n, _ => TInc) case DecN(n) => seq(n, _ => TDec)
  }

  function Expand(ins: seq<Instr>): seq<Token>
  {
    if ins == [] then [] else ExpandOne(ins[0]) + Expand(ins[1..])
  }

  /** Every run of the stream is shorter than its operand limit. */
  predicate RunsFit(ts: seq<Token>)
    decreases |ts|
  {
    if ts == [] then true
    else if IsRunToken(ts[0]) then
      var n := RunLength(ts, ts[0]);
      n < RunLimit(ts[0]) && RunsFit(ts[n..])
    else RunsFit(ts[1..])
  }

  /** A run instruction whose count fits stands for exactly that many copies. */
  lemma ExpandRunInstr(t: Token, n: nat)
    requires IsRunToken(t) && 1 <= n < RunLimit(t)
    ensures ExpandOne(RunInstr(t, n)) == seq(n, _ => t)
  {
  }

  lemma ExpandRun(ts: seq<Token>)
    requires ts != [] && IsRunToken(ts[0]) && RunLength(ts, ts[0]) < RunLimit(ts[0])
    ensures ExpandOne(RunInstr(ts[0], RunLength(ts, ts[0]))) == ts[..RunLength(ts, ts[0])]
  {
    var n := RunLength(ts, ts[0]);
    ExpandRunInstr(ts[0], n);
    assert ts[..n] == seq(n, _ => ts[0]);
  }

  /** Expanding the translation gives the stream back when no run is too
      long for its operand: the compiler loses nothing else. */
  lemma {:induction false} ExpandTranslate(ts: seq<Token>)
    requires TEnd !in ts && RunsFit(ts)
    ensures Expand(Translate(ts)) == ts
    decreases |ts|, 1
  {
    if ts != [] {
      if IsRunToken(ts[0]) {
        ExpandTranslateRun(ts);
      } else {
        ExpandTranslateSimple(ts);
      }
    }
  }

  lemma {:induction false} ExpandTranslateRun(ts: seq<Token>)
    requires TEnd !in ts && RunsFit(ts) && ts != [] && IsRunToken(ts[0])
    ensures Expand(Translate(ts)) == ts
    decreases |ts|, 0
  {
    var n := RunLength(ts, ts[0]);
    var x := RunInstr(ts[0], n);
    var rest := ts[n..];
    RunFits(ts);
    TranslateRun(ts);
    ExpandRun(ts);
    ExpandTranslate(rest);
    ExpandGlue(ts, n, x, Translate(rest));
  }

  /** The first run of a stream whose runs fit: it fits, and so does the
      rest; a stream that starts with no run fits after its first token. */
  lemma RunFits(ts: seq<Token>)
    requires RunsFit(ts) && ts != []
    ensures IsRunToken(ts[0]) ==> var n := RunLength(ts, ts[0]);
      1 <= n < RunLimit(ts[0]) && RunsFit(ts[n..])
    ensures !IsRunToken(ts[0]) ==> RunsFit(ts[1..])
  {
  }

  lemma {:induction false} ExpandTranslateSimple(ts: seq<Token>)
    requires TEnd !in ts && RunsFit(ts) && ts != [] && !IsRunToken(ts[0])
    ensures Expand(Translate(ts)) == ts
    decreases |ts|, 0
  {
    var x := SimpleInstr(ts[0]);
    var rest := ts[1..];
    RunFits(ts);
    TranslateSimple(ts);
    ExpandTranslate(rest);
    ExpandGlue(ts, 1, x, Translate(rest));
  }

  /** An instruction standing for the first `n` tokens, followed by
      instructions standing for the others, stands for them all. */
  lemma ExpandGlue(ts: seq<Token>, n: nat, x: Instr, tail: seq<Instr>)
    requires n <= |ts| && ExpandOne(x) == ts[..n] && Expand(tail) == ts[n..]
    ensures Expand([x] + tail) == ts
  {
    ExpandCons([x], tail);
    assert ts == ts[..n] + ts[n..];
  }

  lemma ExpandCons(x: seq<Instr>, rest: seq<Instr>)
    requires |x| == 1
    ensures Expand(x + rest) == ExpandOne(x[0]) + Expand(rest)
  {
    assert (x + rest)[1..] == rest;
  }

  /** `n` copies of a command byte scan as `n` copies of its token. */
  lemma {:induction false} CommandsOfRepeat(b: byte, n: nat)
    requires IsCommand(b)
    ensures Commands(seq(n, _ => b)) == seq(n, _ => TokenOf(b))
  {
    if n > 0 {
      CommandsOfRepeat(b, n - 1);
      assert seq(n, _ => b)[1..] == seq(n - 1, _ => b);
      assert seq(n, _ => TokenOf(b)) == [TokenOf(b)] + seq(n - 1, _ => TokenOf(b));
    }
  }

  /** A script of 256 `+` compiles to INCn 0 and HLT: the operand wraps to
      0. */
  lemma WrappedRunExample()
    ensures CodeCompile(seq(256, _ => '+' as byte)) == Compiled([INCN, 0, HLT])
  {
    var source := seq(256, _ => '+' as byte);
    CommandsOfRepeat('+' as byte, 256);
    TranslateSingleRun(TInc, 256);
    BalancedSingle(IncN(0));
    CompileVerdict(source);
    var ins := CompiledProgram(source);
    assert ins == [IncN(0)] by {
      assert |ins| == 1 && EraseOne(ins[0]) == IncN(0);
    }
    EncodeWrappedRun();
  }

  lemma EncodeWrappedRun()
    ensures EncodeAll([IncN(0), Hlt]) == [INCN, 0, HLT]
  {
    EncodeAllSnoc([], IncN(0));
    assert [] + [IncN(0)] == [IncN(0)];
    EncodeAllSnoc([IncN(0)], Hlt);
  }
}
