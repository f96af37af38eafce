/**
 * `compile` and `hgbf_code_compile` of code.c as the imperative loop they
 * are: a scanner over the source, the stack of open-block positions and the
 * chunked code buffer, each updated in place.  Every method is proved to
 * compute what CompileSpec describes on values.
 */
module Compiler {
  import opened Bytes
  import opened Opcodes
  import opened Streams
  import opened Scanner
  import opened CodeBuffer
  import opened BlockStack
  import opened CompileSpec
  import opened Seqs

  /** Every open-block position names four operand bytes that lie inside
      the code and inside one chunk, so the `uint32_t` store that patches
      them stays in that chunk. */
  ghost predicate Patchable(positions: seq<nat>, lens: seq<nat>)
  {
    forall k :: 0 <= k < |positions| ==> positions[k] + 4 <= Sum(lens) && FitsIn(lens, positions[k], 4)
  }

  /** The stack and the buffer are valid and share no object. */
  ghost predicate Separate(blocks: Stack, code: CodeBuf)
    reads blocks, blocks.data, code, code.Repr
  {
    && blocks.Valid() && code.Valid()
    && blocks !in code.Repr && blocks.data !in code.Repr
  }

  /** Separate, and every position on the stack patchable. */
  ghost predicate Ready(blocks: Stack, code: CodeBuf)
    reads blocks, blocks.data, code, code.Repr
  {
    Separate(blocks, code) && Patchable(blocks.Elements, code.lengths)
  }

  lemma PatchableExtends(positions: seq<nat>, lens: seq<nat>, lens': seq<nat>)
    requires Patchable(positions, lens) && Extends(lens, lens') && Sum(lens) <= Sum(lens')
    ensures Patchable(positions, lens')
  {
    forall k | 0 <= k < |positions| ensures positions[k] + 4 <= Sum(lens') && FitsIn(lens', positions[k], 4) {
      ExtendsKeepsFit(lens, lens', positions[k], 4);
    }
  }

  lemma PatchablePush(positions: seq<nat>, lens: seq<nat>, p: nat)
    requires Patchable(positions, lens) && p + 4 <= Sum(lens) && FitsIn(lens, p, 4)
    ensures Patchable(positions + [p], lens)
  {
  }

  lemma PatchablePop(positions: seq<nat>, lens: seq<nat>)
    requires Patchable(positions, lens) && positions != []
    ensures Patchable(positions[..|positions| - 1], lens)
  {
  }

  lemma BlocksInContents(positions: seq<nat>, code: CodeBuf)
    requires code.Valid() && Patchable(positions, code.lengths)
    ensures BlocksInCode(positions, code.Contents())
  {
    code.LengthIsContentsLength();
  }

  /** codebuf_append, keeping the positions `open` patchable. */
  method Emit(blocks: Stack, code: CodeBuf, v: seq<byte>, ghost open: seq<nat>)
    requires Separate(blocks, code) && Patchable(open, code.lengths) && |v| <= CHUNK_CAPACITY
    modifies code.Repr
    ensures Separate(blocks, code) && Patchable(open, code.lengths) && fresh(code.Repr - old(code.Repr))
    ensures code.Contents() == old(code.Contents()) + v
    ensures code.length == old(code.length) + |v| && FitsIn(code.lengths, old(code.length), |v|)
  {
    ghost var lens0 := code.lengths;
    code.Append(v);
    PatchableExtends(open, lens0, code.lengths);
  }

  /** The bytes a run compiles to, appended: one opcode for a single
      command, else the repeated opcode and the count's low bytes. */
  method EmitRun(blocks: Stack, code: CodeBuf, t: Token, n: nat)
    requires Ready(blocks, code) && IsRunToken(t) && n >= 1
    modifies code.Repr
    ensures Ready(blocks, code) && fresh(code.Repr - old(code.Repr))
    ensures code.Contents() == old(code.Contents()) + RunCode(t, n)
  {
    ghost var e0, c0 := blocks.Elements, code.Contents();
    if n == 1 {
      Emit(blocks, code, [TokenCode(t)], e0);
    } else {
      Emit(blocks, code, [TokenCode(t) + 9], e0);
      Emit(blocks, code, LittleEndian(n, RunWidth(t)), e0);
      AppendAssoc(c0, [TokenCode(t) + 9], LittleEndian(n, RunWidth(t)));
    }
    assert blocks.Elements == e0;
  }

  /** `[`: JFZ, then its position pushed, then four zero operand bytes. */
  method EmitOpen(blocks: Stack, code: CodeBuf)
    requires Ready(blocks, code)
    modifies blocks, blocks.data, code.Repr
    ensures Ready(blocks, code) && fresh(code.Repr - old(code.Repr)) && fresh(blocks.data)
    ensures code.Contents() == old(code.Contents()) + [JFZ, 0, 0, 0, 0]
    ensures blocks.Elements == old(blocks.Elements) + [|old(code.Contents())| + 1]
  {
    code.LengthIsContentsLength();
    ghost var e0, c0 := blocks.Elements, code.Contents();
    Emit(blocks, code, [JFZ], e0);
    assert blocks.Elements == e0;
    var p := code.length;
    blocks.Push(p);
    Emit(blocks, code, [0, 0, 0, 0], e0);
    PatchablePush(e0, code.lengths, p);
    OpenBytes(c0);
  }

  lemma OpenBytes(c: seq<byte>)
    ensures c + [JFZ] + [0, 0, 0, 0] == c + [JFZ, 0, 0, 0, 0]
  {
    AppendAssoc(c, [JFZ], [0, 0, 0, 0]);
  }

  /** `]`: JBN; then, when a block is open, its position popped, the distance
      appended and patched over the JFZ operand.  `matched` is false when no
      block is open (the JBN is then left in the buffer). */
  method EmitClose(blocks: Stack, code: CodeBuf) returns (matched: bool)
    requires Ready(blocks, code)
    modifies blocks, code.Repr
    ensures Ready(blocks, code) && fresh(code.Repr - old(code.Repr)) && blocks.data == old(blocks.data)
    ensures matched <==> old(blocks.Elements) != []
    ensures !matched ==> code.Contents() == old(code.Contents()) + [JBN] && blocks.Elements == old(blocks.Elements)
    ensures matched ==> BlocksInCode(old(blocks.Elements), old(code.Contents()))
    ensures matched ==> var m := |old(blocks.Elements)|;
      && blocks.Elements == old(blocks.Elements)[..m - 1]
      && code.Contents() == CloseCode(old(code.Contents()), old(blocks.Elements)[m - 1])
  {
    BlocksInContents(blocks.Elements, code);
    ghost var e0, c0 := blocks.Elements, code.Contents();
    Emit(blocks, code, [JBN], blocks.Elements);
    assert blocks.Elements == e0;
    if blocks.IsEmpty() {
      return false;
    }
    ghost var c1 := code.Contents();
    CloseBlock(blocks, code);
    CloseCodeUnfold(c0, c1, e0[|e0| - 1]);
    matched := true;
  }

  /** The matched branch of `]`, after its JBN: stack_top, stack_pop, and
      the link. */
  method CloseBlock(blocks: Stack, code: CodeBuf)
    requires Ready(blocks, code) && blocks.Elements != []
    requires blocks.Elements[|blocks.Elements| - 1] + 4 < code.length
    modifies blocks, code.Repr
    ensures Ready(blocks, code) && fresh(code.Repr - old(code.Repr)) && blocks.data == old(blocks.data)
    ensures var m := |old(blocks.Elements)|; var pos := old(blocks.Elements)[m - 1];
      var v := LittleEndian((|old(code.Contents())| - pos) % TWO32, 4);
      && blocks.Elements == old(blocks.Elements)[..m - 1]
      && pos + 4 <= |old(code.Contents())| && code.Contents() == Splice(old(code.Contents()) + v, pos, v)
  {
    var pos := blocks.Top();
    blocks.Pop();
    assert blocks.Elements + [pos] == old(blocks.Elements);
    Link(blocks, code, pos);
  }

  lemma CloseCodeUnfold(c0: seq<byte>, c1: seq<byte>, pos: nat)
    requires c1 == c0 + [JBN] && pos + 4 <= |c0|
    ensures var v := LittleEndian((|c1| - pos) % TWO32, 4);
      CloseCode(c0, pos) == Splice(c1 + v, pos, v)
  {
  }

  /** The rest of a `]` once its block is popped: the distance from the
      position to the end of the code, appended and patched in. */
  method Link(blocks: Stack, code: CodeBuf, pos: nat)
    requires Separate(blocks, code) && Patchable(blocks.Elements + [pos], code.lengths) && pos + 4 < code.length
    modifies code.Repr
    ensures Ready(blocks, code) && fresh(code.Repr - old(code.Repr))
    ensures var v := LittleEndian((|old(code.Contents())| - pos) % TWO32, 4);
      pos + 4 <= |old(code.Contents())| && code.Contents() == Splice(old(code.Contents()) + v, pos, v)
  {
    code.LengthIsContentsLength();
    var off := (code.length - pos) % TWO32;
    Emit(blocks, code, LittleEndian(off, 4), blocks.Elements + [pos]);
    PatchablePop(blocks.Elements + [pos], code.lengths);
    assert (blocks.Elements + [pos])[..|blocks.Elements|] == blocks.Elements;
    assert (blocks.Elements + [pos])[|blocks.Elements|] == pos;
    ClosePatch(blocks, code, pos, LittleEndian(off, 4));
  }

  /** The patch of a `]`: overwrite the popped position's operand. */
  method ClosePatch(blocks: Stack, code: CodeBuf, pos: nat, v: seq<byte>)
    requires Ready(blocks, code) && pos + 4 <= code.length && |v| == 4
    requires FitsIn(code.lengths, pos, 4)
    modifies code.Repr
    ensures Ready(blocks, code) && code.Repr == old(code.Repr)
    ensures pos + 4 <= |old(code.Contents())| && code.Contents() == Splice(old(code.Contents()), pos, v)
  {
    ghost var lens := code.lengths;
    code.Patch(pos, v);
    assert code.lengths == lens;
  }

  /** The scanner, the stack and the buffer are valid and apart. */
  ghost predicate Apart(scanner: Scanner, blocks: Stack, code: CodeBuf)
    reads scanner, scanner.source, blocks, blocks.data, code, code.Repr
  {
    && scanner.Valid() && Ready(blocks, code)
    && scanner !in code.Repr && scanner.source !in code.Repr
    && BlocksInCode(blocks.Elements, code.Contents())
  }

  /** The loop went from state (s, b, c) to (s', b', c'), closer to the end
      and with the same outcome ahead. */
  ghost predicate Advanced(s: Scan, b: seq<nat>, c: seq<byte>, s': Scan, b': seq<nat>, c': seq<byte>)
  {
    && Measure(s') < Measure(s)
    && BlocksInCode(b, c) && BlocksInCode(b', c')
    && CompileFrom(s', b', c') == CompileFrom(s, b, c)
  }

  /** compile: the scanner loop.  It ends with `ok` exactly when the loop
      reaches the end of the source, with the code and the open blocks
      CompileFrom computes; otherwise at an unmatched `]`, with the
      position reported. */
  method Compile(source: ByteSource, blocks: Stack, code: CodeBuf) returns (ok: bool, line: nat, col: nat)
    requires source.Valid() && Ready(blocks, code) && source !in code.Repr
    requires BlocksInCode(blocks.Elements, code.Contents())
    modifies source, blocks, blocks.data, code.Repr
    ensures Ready(blocks, code) && fresh(code.Repr - old(code.Repr))
    ensures var r := CompileFrom(Init(old(source.Remaining())), old(blocks.Elements), old(code.Contents()));
      && (ok <==> r.Done?)
      && (ok ==> code.Contents() == r.code && blocks.Elements == r.blocks)
      && (!ok ==> line == r.line && col == r.col)
  {
    var scanner := new Scanner(source);
    ghost var goal := CompileFrom(scanner.State(), blocks.Elements, code.Contents());
    while true
      invariant Apart(scanner, blocks, code) && scanner.source == source
      invariant fresh(code.Repr - old(code.Repr)) && (blocks.data == old(blocks.data) || fresh(blocks.data))
      invariant CompileFrom(scanner.State(), blocks.Elements, code.Contents()) == goal
      decreases Measure(scanner.State())
    {
      ghost var s := scanner.State();
      var t := scanner.NextToken();
      if t == TEnd {
        return true, 0, 0;
      }
      var matched := Step(scanner, blocks, code, t, s);
      if !matched {
        return false, scanner.line, scanner.col;
      }
    }
  }

  /** One pass of the loop after scanner_next returned `t`, the current
      token of `s`. */
  method Step(scanner: Scanner, blocks: Stack, code: CodeBuf, t: Token, ghost s: Scan) returns (matched: bool)
    requires Apart(scanner, blocks, code) && s.current == t && t != TEnd && scanner.State() == Next(s)
    requires BlocksInCode(blocks.Elements, code.Contents())
    modifies scanner, scanner.source, blocks, blocks.data, code.Repr
    ensures Apart(scanner, blocks, code) && fresh(code.Repr - old(code.Repr))
    ensures blocks.data == old(blocks.data) || fresh(blocks.data)
    ensures matched ==> Advanced(s, old(blocks.Elements), old(code.Contents()), scanner.State(), blocks.Elements, code.Contents())
    ensures !matched ==> CompileFrom(s, old(blocks.Elements), old(code.Contents())) == Unmatched(scanner.line, scanner.col)
  {
    matched := true;
    if IsRunToken(t) {
      StepRun(scanner, blocks, code, t, s);
    } else if t == TOut || t == TIn {
      StepOutIn(scanner, blocks, code, t, s);
    } else if t == TJfz {
      StepOpen(scanner, blocks, code, s);
    } else {
      matched := StepClose(scanner, blocks, code, s);
    }
  }

  method StepRun(scanner: Scanner, blocks: Stack, code: CodeBuf, t: Token, ghost s: Scan)
    requires Apart(scanner, blocks, code) && s.current == t && IsRunToken(t) && scanner.State() == Next(s)
    modifies scanner, scanner.source, code.Repr
    ensures Apart(scanner, blocks, code) && fresh(code.Repr - old(code.Repr))
    ensures Advanced(s, old(blocks.Elements), old(code.Contents()), scanner.State(), blocks.Elements, code.Contents())
  {
    ghost var b0, c0 := blocks.Elements, code.Contents();
    var n := ReadRun(scanner, t);
    EmitRun(blocks, code, t, n);
    BlocksInContents(blocks.Elements, code);
    AdvancedRun(s, b0, c0, scanner.State(), n);
  }

  lemma AdvancedRun(s: Scan, b: seq<nat>, c: seq<byte>, s': Scan, n: nat)
    requires BlocksInCode(b, c) && IsRunToken(s.current)
    requires n == 1 + CountRun(Next(s), s.current).0 && s' == CountRun(Next(s), s.current).1
    ensures Advanced(s, b, c, s', b, c + RunCode(s.current, n))
  {
    UnfoldRun(s, b, c, n, s');
  }

  method StepOutIn(scanner: Scanner, blocks: Stack, code: CodeBuf, t: Token, ghost s: Scan)
    requires Apart(scanner, blocks, code) && s.current == t && (t == TOut || t == TIn) && scanner.State() == Next(s)
    modifies code.Repr
    ensures Apart(scanner, blocks, code) && fresh(code.Repr - old(code.Repr))
    ensures Advanced(s, old(blocks.Elements), old(code.Contents()), scanner.State(), blocks.Elements, code.Contents())
  {
    ghost var b0, c0 := blocks.Elements, code.Contents();
    Emit(blocks, code, [if t == TOut then OUT else IN], blocks.Elements);
    BlocksInContents(blocks.Elements, code);
    AdvancedOutIn(s, b0, c0, scanner.State());
  }

  lemma AdvancedOutIn(s: Scan, b: seq<nat>, c: seq<byte>, s': Scan)
    requires BlocksInCode(b, c) && (s.current == TOut || s.current == TIn) && s' == Next(s)
    ensures Advanced(s, b, c, s', b, c + [if s.current == TOut then OUT else IN])
  {
    UnfoldOutIn(s, b, c);
  }

  method StepOpen(scanner: Scanner, blocks: Stack, code: CodeBuf, ghost s: Scan)
    requires Apart(scanner, blocks, code) && s.current == TJfz && scanner.State() == Next(s)
    modifies blocks, blocks.data, code.Repr
    ensures Apart(scanner, blocks, code) && fresh(code.Repr - old(code.Repr)) && fresh(blocks.data)
    ensures Advanced(s, old(blocks.Elements), old(code.Contents()), scanner.State(), blocks.Elements, code.Contents())
  {
    ghost var b0, c0 := blocks.Elements, code.Contents();
    EmitOpen(blocks, code);
    BlocksInContents(blocks.Elements, code);
    AdvancedOpen(s, b0, c0, scanner.State());
  }

  lemma AdvancedOpen(s: Scan, b: seq<nat>, c: seq<byte>, s': Scan)
    requires BlocksInCode(b, c) && s.current == TJfz && s' == Next(s)
    ensures Advanced(s, b, c, s', b + [|c| + 1], c + [JFZ, 0, 0, 0, 0])
  {
    UnfoldOpen(s, b, c);
  }

  method StepClose(scanner: Scanner, blocks: Stack, code: CodeBuf, ghost s: Scan) returns (matched: bool)
    requires Apart(scanner, blocks, code) && s.current == TJbn && scanner.State() == Next(s)
    modifies blocks, code.Repr
    ensures Apart(scanner, blocks, code) && fresh(code.Repr - old(code.Repr)) && blocks.data == old(blocks.data)
    ensures matched ==> Advanced(s, old(blocks.Elements), old(code.Contents()), scanner.State(), blocks.Elements, code.Contents())
    ensures !matched ==> CompileFrom(s, old(blocks.Elements), old(code.Contents())) == Unmatched(scanner.line, scanner.col)
  {
    ghost var b0, c0 := blocks.Elements, code.Contents();
    matched := EmitClose(blocks, code);
    BlocksInContents(blocks.Elements, code);
    if matched {
      AdvancedClose(s, b0, c0, scanner.State());
    } else {
      UnfoldClose(s, b0, c0);
    }
  }

  lemma AdvancedClose(s: Scan, b: seq<nat>, c: seq<byte>, s': Scan)
    requires BlocksInCode(b, c) && s.current == TJbn && s' == Next(s) && b != []
    ensures Advanced(s, b, c, s', b[..|b| - 1], CloseCode(c, b[|b| - 1]))
  {
    UnfoldClose(s, b, c);
  }

  /** The `while (scanner_peek(...) == token)` loop after the first command
      of a run: `n` counts the run, and the scanner ends on the first state
      that holds another token. */
  method ReadRun(scanner: Scanner, t: Token) returns (n: nat)
    requires scanner.Valid() && t != TEnd
    modifies scanner, scanner.source
    ensures scanner.Valid()
    ensures n == 1 + CountRun(old(scanner.State()), t).0
    ensures scanner.State() == CountRun(old(scanner.State()), t).1
  {
    ghost var start := CountRun(scanner.State(), t);
    n := 1;
    while scanner.Peek() == t
      invariant scanner.Valid()
      invariant start.0 == n - 1 + CountRun(scanner.State(), t).0
      invariant start.1 == CountRun(scanner.State(), t).1
      decreases Measure(scanner.State())
    {
      ghost var s := scanner.State();
      CountRunStep(s, t);
      scanner.Drop();
      n := n + 1;
      assert scanner.State() == Next(s);
    }
  }

  lemma CountRunStep(s: Scan, t: Token)
    requires s.current == t && t != TEnd
    ensures Measure(Next(s)) < Measure(s)
    ensures CountRun(s, t) == (CountRun(Next(s), t).0 + 1, CountRun(Next(s), t).1)
  {
  }

  /** The message hgbf_code_compile leaves with hgbf_err_record. */
  datatype Diagnostic = NoDiagnostic | NoMatchingOpenAt(line: nat, col: nat) | NotClosedReported

  /** hgbf_code_compile: compile, reject a `[` left open, append HLT and
      copy the code into one block of exactly its length. */
  method CompileScript(script: ByteSource) returns (code: array?<byte>, diag: Diagnostic)
    requires script.Valid()
    modifies script
    ensures match CodeCompile(old(script.Remaining()))
      case Compiled(bytes) => code != null && fresh(code) && code[..] == bytes && diag == NoDiagnostic
      case NoMatchingOpen(line, col) => code == null && diag == NoMatchingOpenAt(line, col)
      case NotClosed => code == null && diag == NotClosedReported
  {
    var buf := new CodeBuf();
    var blocks := new Stack();
    assert [0][..0] == [];
    var ok, line, col := Compile(script, blocks, buf);
    if !ok {
      code, diag := null, NoMatchingOpenAt(line, col);
    } else if !blocks.IsEmpty() {
      code, diag := null, NotClosedReported;
    } else {
      buf.Append1(HLT);
      buf.LengthIsContentsLength();
      code := new byte[buf.length];
      buf.Copy(code);
      diag := NoDiagnostic;
    }
  }
}
