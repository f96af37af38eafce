/**
 * What the compiler of code.c produces, stated on instructions: the code it
 * emits for a script is the encoding of one instruction per maximal run of
 * `>`, `<`, `+`, `-` and one per other command, with every JFZ/JBN pair
 * linked by the distance between them; it reports an unmatched `]` exactly
 * when the brackets of the script close more than they open at some point,
 * and an unclosed `[` exactly when they end open.
 */
module CompileProof {
  import opened Bytes
  import opened Opcodes
  import opened Scanner
  import opened Program
  import opened CodeBuffer
  import opened CompileSpec
  import opened Brackets
  import opened Seqs

  /** The number of leading `t` tokens of `ts`. */
  function RunLength(ts: seq<Token>, t: Token): (n: nat)
    ensures n <= |ts|
    ensures forall k :: 0 <= k < n ==> ts[k] == t
    ensures n < |ts| ==> ts[n] != t
  {
    if ts == [] || ts[0] != t then 0 else 1 + RunLength(ts[1..], t)
  }

  /** The instruction for a run of `n >= 1` tokens `t`: the plain one for a
      single token, else the repeated one with the count truncated to its
      operand width. */
  function RunInstr(t: Token, n: nat): Instr
    requires IsRunToken(t) && n >= 1
  {
    if n == 1 then
      (if t == TNxt then Nxt else if t == TPrv then Prv else if t == TInc then Inc else Dec)
    else if t == TNxt then NxtN(n % 0x1_0000)
    else if t == TPrv then PrvN(n % 0x1_0000)
    else if t == TInc then IncN(n % 0x100)
    else DecN(n % 0x100)
  }

  /** The instruction for `.`, `,`, `[` and `]`, jump operands not yet set. */
  function SimpleInstr(t: Token): Instr
    requires t != TEnd && !IsRunToken(t)
  {
    if t == TOut then Out else if t == TIn then In else if t == TJfz then Jfz(0) else Jbn(0)
  }

  /** The instructions of a token stream, jump operands cleared. */
  function Translate(ts: seq<Token>): seq<Instr>
    requires TEnd !in ts
    decreases |ts|
  {
    if ts == [] then []
    else if IsRunToken(ts[0]) then
      var n := RunLength(ts, ts[0]);
      assert forall k :: 0 <= k < |ts[n..]| ==> ts[n..][k] == ts[n + k];
      [RunInstr(ts[0], n)] + Translate(ts[n..])
    else
      [SimpleInstr(ts[0])] + Translate(ts[1..])
  }

  /** The bytes of a run are the encoding of its instruction, which is well formed. */
  lemma RunEncoding(t: Token, n: nat)
    requires IsRunToken(t) && n >= 1
    ensures Encode(RunInstr(t, n)) == RunCode(t, n)
    ensures WellFormed(RunInstr(t, n)) && EraseOne(RunInstr(t, n)) == RunInstr(t, n)
    ensures !RunInstr(t, n).Jfz? && !RunInstr(t, n).Jbn?
  {
    Pow256Values();
    LittleEndianMod(n, RunWidth(t));
  }

  /** The count of a run read by `CountRun` is its length in the token
      stream, and the state it stops at holds the tokens after the run. */
  lemma {:induction false} CountRunTokens(s: Scan, t: Token)
    requires t != TEnd
    ensures CountRun(s, t).0 == RunLength(Tokens(s), t)
    ensures Tokens(CountRun(s, t).1) == Tokens(s)[CountRun(s, t).0..]
    decreases Measure(s)
  {
    if s.current == t {
      NextDropsCurrent(s);
      CountRunTokens(Next(s), t);
    }
  }

  /** A run state: the count `CountRun` reads is the run's length in the
      token stream, and the state it stops at holds the tokens after it. */
  lemma RunTokens(s: Scan)
    requires IsRunToken(s.current)
    ensures var run := CountRun(Next(s), s.current);
      && 1 + run.0 == RunLength(Tokens(s), s.current)
      && Tokens(run.1) == Tokens(s)[1 + run.0..]
  {
    var t := s.current;
    NextDropsCurrent(s);
    CountRunTokens(Next(s), t);
    var ts := Tokens(s);
    assert ts[0] == t;
    assert ts[1..][CountRun(Next(s), t).0..] == ts[1 + CountRun(Next(s), t).0..];
  }

  /** The tail of the stack is the JFZ at the last open index, followed by
      a balanced run; the same holds of what precedes it, down to a base
      that is balanced. */
  ghost predicate Layered(ins: seq<Instr>, opens: seq<nat>)
    decreases |opens|
  {
    if opens == [] then Balanced(ins)
    else
      var o := opens[|opens| - 1];
      && o < |ins| && ins[o] == Jfz(0) && Balanced(ins[o + 1..])
      && Layered(ins[..o], opens[..|opens| - 1])
  }

  /** The positions on the block stack are those of the operands of the
      open JFZs. */
  ghost predicate OpenAddrs(ins: seq<Instr>, opens: seq<nat>, blocks: seq<nat>)
  {
    && |blocks| == |opens|
    && forall k :: 0 <= k < |opens| ==> opens[k] < |ins| && blocks[k] == Addr(ins, opens[k]) + 1
  }

  /** What the compiler has emitted: the encoding of well-formed
      instructions whose closed pairs are linked. */
  ghost predicate Emitted(ins: seq<Instr>, opens: seq<nat>, blocks: seq<nat>, code: seq<byte>)
  {
    && code == EncodeAll(ins)
    && AllWellFormed(ins)
    && Layered(ins, opens)
    && OpenAddrs(ins, opens, blocks)
    && Linked(ins)
  }

  /** The compile loop's invariant: what is emitted, followed by the
      translation of the tokens still to come, is the translation of the
      whole script `T`. */
  ghost predicate Inv(T: seq<Token>, todo: seq<Token>, ins: seq<Instr>, opens: seq<nat>, blocks: seq<nat>, code: seq<byte>)
    requires TEnd !in T && TEnd !in todo
  {
    && Emitted(ins, opens, blocks, code)
    && Erase(ins) + Translate(todo) == Translate(T)
  }

  lemma BalancedEmpty()
    ensures Balanced([])
  {
    var e: seq<Instr> := [];
    assert e[..0] == e;
  }

  lemma BalancedSingle(x: Instr)
    requires !x.Jfz? && !x.Jbn?
    ensures Balanced([x])
  {
    NonNegativeSingle(x);
    DepthSingle(x);
  }

  lemma LayeredAppend(ins: seq<Instr>, opens: seq<nat>, b: seq<Instr>)
    requires Layered(ins, opens) && Balanced(b)
    ensures Layered(ins + b, opens)
  {
    if opens == [] {
      BalancedConcat(ins, b);
    } else {
      var o := opens[|opens| - 1];
      assert (ins + b)[o + 1..] == ins[o + 1..] + b;
      BalancedConcat(ins[o + 1..], b);
      assert (ins + b)[..o] == ins[..o];
    }
  }

  lemma LayeredOpen(ins: seq<Instr>, opens: seq<nat>)
    requires Layered(ins, opens)
    ensures Layered(ins + [Jfz(0)], opens + [|ins|])
  {
    var ins' := ins + [Jfz(0)];
    BalancedEmpty();
    assert ins'[|ins| + 1..] == [];
    assert ins'[..|ins|] == ins;
    assert (opens + [|ins|])[..|opens|] == opens;
  }

  /** Closing the innermost open block leaves one less open. */
  lemma LayeredClose(ins: seq<Instr>, opens: seq<nat>, off: nat)
    requires Layered(ins, opens) && opens != []
    ensures var o := opens[|opens| - 1];
      Layered(ins[o := Jfz(off)] + [Jbn(off)], opens[..|opens| - 1])
  {
    var o, outer := opens[|opens| - 1], opens[..|opens| - 1];
    var body := ins[o + 1..];
    LayeredTop(ins, opens);
    var block := [Jfz(off)] + body + [Jbn(off)];
    BalancedBlock(body, off);
    LayeredAppend(ins[..o], outer, block);
    SliceClose(ins, o, Jfz(off), Jbn(off));
  }

  /** What a layered program says about its innermost open block. */
  lemma LayeredTop(ins: seq<Instr>, opens: seq<nat>)
    requires Layered(ins, opens) && opens != []
    ensures var o := opens[|opens| - 1];
      && o < |ins| && ins[o] == Jfz(0) && Balanced(ins[o + 1..])
      && Layered(ins[..o], opens[..|opens| - 1])
  {
  }

  lemma BalancedBlock(body: seq<Instr>, off: nat)
    requires Balanced(body)
    ensures Balanced([Jfz(off)] + body + [Jbn(off)])
  {
    BalancedEmpty();
    BalancedWrap([], Jfz(off), body, Jbn(off));
    assert [] + [Jfz(off)] + body + [Jbn(off)] == [Jfz(off)] + body + [Jbn(off)];
  }

  /** Layered instructions never close more than they open, and are as
      deep as the number of open blocks. */
  lemma {:induction false} LayeredDepth(ins: seq<Instr>, opens: seq<nat>)
    requires Layered(ins, opens)
    ensures NonNegative(ins) && Depth(ins) == |opens|
    decreases |opens|
  {
    if opens != [] {
      var o := opens[|opens| - 1];
      var a, b := ins[..o], ins[o + 1..];
      LayeredDepth(a, opens[..|opens| - 1]);
      assert ins == a + [ins[o]] + b;
      NonNegativeSingle(ins[o]);
      DepthSingle(ins[o]);
      NonNegativeConcat(a, [ins[o]]);
      NonNegativeConcat(a + [ins[o]], b);
      DepthSplit(a, [ins[o]]);
      DepthSplit(a + [ins[o]], b);
    }
  }

  lemma OpenAddrsAppend(ins: seq<Instr>, opens: seq<nat>, blocks: seq<nat>, b: seq<Instr>)
    requires OpenAddrs(ins, opens, blocks)
    ensures OpenAddrs(ins + b, opens, blocks)
  {
    forall k | 0 <= k < |opens| ensures Addr(ins + b, opens[k]) == Addr(ins, opens[k]) {
      PrefixAddr(ins, b, opens[k]);
    }
  }

  lemma OpenAddrsOpen(ins: seq<Instr>, opens: seq<nat>, blocks: seq<nat>)
    requires OpenAddrs(ins, opens, blocks)
    ensures OpenAddrs(ins + [Jfz(0)], opens + [|ins|], blocks + [|EncodeAll(ins)| + 1])
  {
    OpenAddrsAppend(ins, opens, blocks, [Jfz(0)]);
    PrefixAddr(ins, [Jfz(0)], |ins|);
    AddrLast(ins);
  }

  lemma LinkedAppend(ins: seq<Instr>, x: Instr)
    requires Linked(ins) && !x.Jbn?
    ensures Linked(ins + [x])
  {
    forall i: nat, j: nat | Matches(ins + [x], i, j) ensures PairLinked(ins + [x], i, j) {
      PrefixMatches(ins, [x], i, j);
      PrefixAddr(ins, [x], i);
      PrefixAddr(ins, [x], j);
    }
  }

  /** Appending a well-formed instruction that is no jump keeps what is
      emitted consistent. */
  lemma EmittedSnoc(ins: seq<Instr>, opens: seq<nat>, blocks: seq<nat>, code: seq<byte>, x: Instr)
    requires Emitted(ins, opens, blocks, code) && WellFormed(x) && !x.Jfz? && !x.Jbn?
    ensures Emitted(ins + [x], opens, blocks, code + Encode(x))
  {
    EncodeAllSnoc(ins, x);
    BalancedSingle(x);
    LayeredAppend(ins, opens, [x]);
    OpenAddrsAppend(ins, opens, blocks, [x]);
    LinkedAppend(ins, x);
  }

  lemma EmittedOpen(ins: seq<Instr>, opens: seq<nat>, blocks: seq<nat>, code: seq<byte>)
    requires Emitted(ins, opens, blocks, code)
    ensures Emitted(ins + [Jfz(0)], opens + [|ins|], blocks + [|code| + 1], code + [JFZ, 0, 0, 0, 0])
  {
    EncodeOpen(ins);
    LayeredOpen(ins, opens);
    OpenAddrsOpen(ins, opens, blocks);
    LinkedAppend(ins, Jfz(0));
  }

  /** A `[` appends the well-formed JFZ with a zero operand. */
  lemma EncodeOpen(ins: seq<Instr>)
    requires AllWellFormed(ins)
    ensures EncodeAll(ins + [Jfz(0)]) == EncodeAll(ins) + [JFZ, 0, 0, 0, 0]
    ensures AllWellFormed(ins + [Jfz(0)])
  {
    EncodeAllSnoc(ins, Jfz(0));
    assert LittleEndian(0, 4) == [0, 0, 0, 0];
    Pow256Values();
  }

  lemma EraseSnoc(ins: seq<Instr>, x: Instr)
    ensures Erase(ins + [x]) == Erase(ins) + [EraseOne(x)]
  {
  }

  lemma ShiftOne(e: seq<Instr>, x: Instr, r: seq<Instr>, w: seq<Instr>)
    requires e + ([x] + r) == w
    ensures (e + [x]) + r == w
  {
  }

  /** Translating a stream that starts with a run: its instruction, then the
      rest. */
  lemma TranslateRun(todo: seq<Token>)
    requires TEnd !in todo && todo != [] && IsRunToken(todo[0])
    ensures var n := RunLength(todo, todo[0]);
      TEnd !in todo[n..] && Translate(todo) == [RunInstr(todo[0], n)] + Translate(todo[n..])
  {
  }

  lemma TranslateSimple(todo: seq<Token>)
    requires TEnd !in todo && todo != [] && !IsRunToken(todo[0])
    ensures TEnd !in todo[1..] && Translate(todo) == [SimpleInstr(todo[0])] + Translate(todo[1..])
  {
  }

  /** Emitting the instruction of the next token, when it is no jump. */
  lemma InvAfterEmit(T: seq<Token>, todo: seq<Token>, todo': seq<Token>, ins: seq<Instr>, opens: seq<nat>,
                 blocks: seq<nat>, code: seq<byte>, x: Instr)
    requires TEnd !in T && TEnd !in todo && TEnd !in todo'
    requires Inv(T, todo, ins, opens, blocks, code)
    requires Translate(todo) == [x] + Translate(todo')
    requires WellFormed(x) && !x.Jfz? && !x.Jbn?
    ensures Inv(T, todo', ins + [x], opens, blocks, code + Encode(x))
  {
    EmittedSnoc(ins, opens, blocks, code, x);
    EraseSnoc(ins, x);
    ShiftOne(Erase(ins), x, Translate(todo'), Translate(T));
  }

  lemma InvAfterOpen(T: seq<Token>, todo: seq<Token>, todo': seq<Token>, ins: seq<Instr>, opens: seq<nat>, blocks: seq<nat>, code: seq<byte>)
    requires TEnd !in T && TEnd !in todo && todo != [] && todo[0] == TJfz && todo' == todo[1..]
    requires Inv(T, todo, ins, opens, blocks, code)
    ensures TEnd !in todo'
    ensures Inv(T, todo', ins + [Jfz(0)], opens + [|ins|], blocks + [|code| + 1], code + [JFZ, 0, 0, 0, 0])
  {
    EmittedOpen(ins, opens, blocks, code);
    TranslateSimple(todo);
    EraseSnoc(ins, Jfz(0));
    ShiftOne(Erase(ins), Jfz(0), Translate(todo[1..]), Translate(T));
  }

  /** A `]` with no open block: the script's brackets close more than they
      open at this point. */
  lemma DipAtClose(T: seq<Token>, todo: seq<Token>, ins: seq<Instr>, opens: seq<nat>, blocks: seq<nat>, code: seq<byte>)
    requires TEnd !in T && TEnd !in todo && todo != [] && todo[0] == TJbn
    requires Inv(T, todo, ins, opens, blocks, code) && blocks == []
    ensures !NonNegative(Translate(T))
  {
    TranslateSimple(todo);
    LayeredDepth(ins, opens);
    DipAfter(Erase(ins), ins, Translate(todo[1..]), Translate(T));
  }

  lemma DipAfter(e: seq<Instr>, ins: seq<Instr>, r: seq<Instr>, w: seq<Instr>)
    requires e == Erase(ins) && Depth(ins) == 0 && w == e + ([Jbn(0)] + r)
    ensures !NonNegative(w)
  {
    EraseErased(ins);
    SameShape(e, ins);
    assert w[..|e| + 1] == e + [Jbn(0)];
    DepthSplit(e, [Jbn(0)]);
    DepthSingle(Jbn(0));
  }

  lemma EncodeAround(a: seq<Instr>, x: Instr, b: seq<Instr>)
    ensures EncodeAll(a + [x] + b) == EncodeAll(a) + Encode(x) + EncodeAll(b)
  {
    EncodeAllSplit(a + [x], b);
    EncodeAllSnoc(a, x);
  }

  lemma EncodeJfz(x: nat)
    ensures Encode(Jfz(x)) == [JFZ] + LittleEndian(x, 4)
  {
  }

  lemma Regroup(a: seq<byte>, b: seq<byte>, c: seq<byte>, d: seq<byte>)
    ensures a + (b + c) + d == (a + b) + c + d
  {
  }

  lemma SpliceWhole(c: seq<byte>, v: seq<byte>)
    requires |c| == |v|
    ensures Splice(c, 0, v) == v
  {
    assert c[..0] + v + c[|v|..] == v;
  }

  /** Writing `off` over the zero operand of a JFZ. */
  lemma SpliceOperand(pre: seq<byte>, post: seq<byte>, off: nat)
    ensures |pre| + 5 <= |pre + Encode(Jfz(0)) + post|
    ensures Splice(pre + Encode(Jfz(0)) + post, |pre| + 1, LittleEndian(off, 4)) == pre + Encode(Jfz(off)) + post
  {
    var v, z := LittleEndian(off, 4), LittleEndian(0, 4);
    EncodeJfz(0);
    EncodeJfz(off);
    Regroup(pre, [JFZ], z, post);
    Regroup(pre, [JFZ], v, post);
    SpliceZeroOperand(pre + [JFZ], post, off);
  }

  lemma SpliceZeroOperand(a: seq<byte>, post: seq<byte>, off: nat)
    ensures Splice(a + LittleEndian(0, 4) + post, |a|, LittleEndian(off, 4)) == a + LittleEndian(off, 4) + post
  {
    var v, z := LittleEndian(off, 4), LittleEndian(0, 4);
    SpliceMiddle(a, z, post, 0, v);
    SpliceWhole(z, v);
  }

  /** Patching the operand of the JFZ at `o` in the bytes is setting its
      offset in the instructions. */
  lemma PatchEncoding(ins: seq<Instr>, o: nat, off: nat)
    requires o < |ins| && ins[o] == Jfz(0)
    ensures Addr(ins, o) + 5 <= |EncodeAll(ins)|
    ensures EncodeAll(ins[o := Jfz(off)]) == Splice(EncodeAll(ins), Addr(ins, o) + 1, LittleEndian(off, 4))
  {
    var a, b := ins[..o], ins[o + 1..];
    SliceAround(ins, o, Jfz(off));
    EncodeAround(a, Jfz(0), b);
    EncodeAround(a, Jfz(off), b);
    SpliceOperand(EncodeAll(a), EncodeAll(b), off);
  }

  lemma SpliceBefore(c: seq<byte>, d: seq<byte>, pos: nat, v: seq<byte>)
    requires pos + |v| <= |c|
    ensures Splice(c + d, pos, v) == Splice(c, pos, v) + d
  {
  }

  /** The program after a `]` closes the block opened at `o`, with `off`
      as both operands. */
  function Closed(ins: seq<Instr>, o: nat, off: nat): seq<Instr>
    requires o < |ins|
  {
    ins[o := Jfz(off)] + [Jbn(off)]
  }

  /** The bytes a `]` leaves: the JFZ operand at `pos` overwritten, then
      the JBN and its operand. */
  lemma CloseCodeShape(code: seq<byte>, pos: nat)
    requires pos + 4 <= |code|
    ensures var v := LittleEndian((|code| + 1 - pos) % TWO32, 4);
      CloseCode(code, pos) == Splice(code, pos, v) + ([JBN] + v)
  {
    var v := LittleEndian((|code| + 1 - pos) % TWO32, 4);
    assert code + [JBN] + v == code + ([JBN] + v);
    SpliceBefore(code, [JBN] + v, pos, v);
  }

  /** The bytes `]` leaves are the encoding of the closed program. */
  lemma CloseEncoding(ins: seq<Instr>, o: nat, pos: nat, off: nat)
    requires o < |ins| && ins[o] == Jfz(0) && pos == Addr(ins, o) + 1
    requires off == (|EncodeAll(ins)| + 1 - pos) % TWO32
    ensures pos + 4 <= |EncodeAll(ins)|
    ensures CloseCode(EncodeAll(ins), pos) == EncodeAll(Closed(ins, o, off))
  {
    PatchEncoding(ins, o, off);
    CloseCodeShape(EncodeAll(ins), pos);
    EncodeAllSnoc(ins[o := Jfz(off)], Jbn(off));
  }

  /** In the closed program, a pair that ends before the new JBN is one of
      the old pairs, at the same addresses and not involving `o`. */
  lemma LinkedCloseOld(ins: seq<Instr>, opens: seq<nat>, off: nat, i: nat, j: nat)
    requires Layered(ins, opens) && opens != [] && Linked(ins)
    requires Matches(Closed(ins, opens[|opens| - 1], off), i, j) && j < |ins|
    ensures PairLinked(Closed(ins, opens[|opens| - 1], off), i, j)
  {
    var o := opens[|opens| - 1];
    var p := ins[o := Jfz(off)];
    assert Erase(p) == Erase(ins);
    PrefixMatches(p, [Jbn(off)], i, j);
    SameShapeMatches(p, ins, i, j);
    assert Matches(ins, i, j);
    NotTheOpen(ins, o, i, j);
    assert PairLinked(ins, i, j);
    PrefixAddr(p, [Jbn(off)], i);
    PrefixAddr(p, [Jbn(off)], j);
    var ins' := p + [Jbn(off)];
    assert ins'[i] == ins[i] && ins'[j] == ins[j];
    SameDistance(ins', ins, i, j);
  }

  lemma SameDistance(a: seq<Instr>, b: seq<Instr>, i: nat, j: nat)
    requires i <= j <= |a| && j <= |b|
    requires Addr(a, i) == Addr(b, i) && Addr(a, j) == Addr(b, j)
    ensures Distance(a, i, j) == Distance(b, i, j)
  {
  }

  /** An old pair does not start at the open block's JFZ, whose remainder is
      balanced. */
  lemma NotTheOpen(ins: seq<Instr>, o: nat, i: nat, j: nat)
    requires o < |ins| && ins[o].Jfz? && Balanced(ins[o + 1..]) && Matches(ins, i, j)
    ensures i != o && j != o
  {
    if o < j {
      NoMatchInside(ins, o, j);
    }
  }

  /** The new JBN's only pair is the JFZ at `o`, and both carry their distance. */
  lemma LinkedCloseNew(ins: seq<Instr>, opens: seq<nat>, off: nat, i: nat)
    requires Layered(ins, opens) && opens != []
    requires off == Distance(ins, opens[|opens| - 1], |ins|)
    requires Matches(Closed(ins, opens[|opens| - 1], off), i, |ins|)
    ensures PairLinked(Closed(ins, opens[|opens| - 1], off), i, |ins|)
  {
    var o := opens[|opens| - 1];
    var p := ins[o := Jfz(off)];
    var ins' := p + [Jbn(off)];
    assert ins'[o + 1..|ins|] == ins[o + 1..];
    assert Matches(ins', o, |ins|);
    MatchUniqueOpen(ins', i, o, |ins|);
    assert Erase(p) == Erase(ins);
    PrefixAddr(p, [Jbn(off)], o);
    PrefixAddr(p, [Jbn(off)], |ins|);
    SameShapeAddr(p, ins, o);
    SameShapeAddr(p, ins, |ins|);
    assert ins'[o] == Jfz(off) && ins'[|ins|] == Jbn(off);
    SameDistance(ins', ins, o, |ins|);
  }

  lemma LinkedClose(ins: seq<Instr>, opens: seq<nat>, off: nat)
    requires Layered(ins, opens) && opens != [] && Linked(ins)
    requires off == Distance(ins, opens[|opens| - 1], |ins|)
    ensures Linked(Closed(ins, opens[|opens| - 1], off))
  {
    var ins' := Closed(ins, opens[|opens| - 1], off);
    forall i: nat, j: nat | Matches(ins', i, j) ensures PairLinked(ins', i, j) {
      if j < |ins| {
        LinkedCloseOld(ins, opens, off, i, j);
      } else {
        LinkedCloseNew(ins, opens, off, i);
      }
    }
  }

  lemma OpenAddrsClose(ins: seq<Instr>, opens: seq<nat>, blocks: seq<nat>, off: nat)
    requires OpenAddrs(ins, opens, blocks) && opens != []
    requires ins[opens[|opens| - 1]] == Jfz(0)
    ensures OpenAddrs(Closed(ins, opens[|opens| - 1], off), opens[..|opens| - 1], blocks[..|blocks| - 1])
  {
    var o := opens[|opens| - 1];
    var p := ins[o := Jfz(off)];
    EraseRelink(ins, o, off);
    forall k | 0 <= k < |opens| - 1
      ensures Addr(p + [Jbn(off)], opens[k]) == Addr(ins, opens[k])
    {
      PrefixAddr(p, [Jbn(off)], opens[k]);
      SameShapeAddr(p, ins, opens[k]);
    }
  }

  lemma WellFormedClose(ins: seq<Instr>, o: nat, off: nat)
    requires AllWellFormed(ins) && o < |ins| && off < TWO32
    ensures AllWellFormed(Closed(ins, o, off))
  {
    Pow256Values();
  }

  /** A `]` closing the innermost open block keeps what is emitted consistent. */
  lemma EmittedClose(ins: seq<Instr>, opens: seq<nat>, blocks: seq<nat>, code: seq<byte>)
    requires Emitted(ins, opens, blocks, code) && opens != []
    ensures var o, pos := opens[|opens| - 1], blocks[|blocks| - 1];
      && o < |ins| && pos + 4 <= |code|
      && Emitted(Closed(ins, o, (|code| + 1 - pos) % TWO32), opens[..|opens| - 1], blocks[..|blocks| - 1], CloseCode(code, pos))
      && Erase(Closed(ins, o, (|code| + 1 - pos) % TWO32)) == Erase(ins) + [Jbn(0)]
  {
    var o, pos := opens[|opens| - 1], blocks[|blocks| - 1];
    var off := (|code| + 1 - pos) % TWO32;
    LayeredTop(ins, opens);
    OpenTop(ins, opens, blocks);
    CloseEncoding(ins, o, pos, off);
    WellFormedClose(ins, o, off);
    LayeredClose(ins, opens, off);
    OpenAddrsClose(ins, opens, blocks, off);
    CloseLinks(ins, opens, pos, off);
    EraseClose(ins, o, off);
  }

  /** The position on top of the block stack is that of the innermost open
      JFZ's operand. */
  lemma OpenTop(ins: seq<Instr>, opens: seq<nat>, blocks: seq<nat>)
    requires OpenAddrs(ins, opens, blocks) && opens != []
    ensures opens[|opens| - 1] < |ins| && blocks[|blocks| - 1] == Addr(ins, opens[|opens| - 1]) + 1
  {
  }

  lemma CloseLinks(ins: seq<Instr>, opens: seq<nat>, pos: nat, off: nat)
    requires Layered(ins, opens) && opens != [] && Linked(ins)
    requires opens[|opens| - 1] < |ins| && pos == Addr(ins, opens[|opens| - 1]) + 1
    requires off == (|EncodeAll(ins)| + 1 - pos) % TWO32
    ensures Linked(Closed(ins, opens[|opens| - 1], off))
  {
    CloseDistance(ins, opens[|opens| - 1], pos);
    LinkedClose(ins, opens, off);
  }

  lemma EraseClose(ins: seq<Instr>, o: nat, off: nat)
    requires o < |ins| && ins[o].Jfz?
    ensures Erase(Closed(ins, o, off)) == Erase(ins) + [Jbn(0)]
  {
    EraseRelink(ins, o, off);
    EraseSnoc(ins[o := Jfz(off)], Jbn(off));
  }

  /** The offset a `]` computes from the code length and the pushed
      position is the distance from its JFZ to the end of the code. */
  lemma CloseDistance(ins: seq<Instr>, o: nat, pos: nat)
    requires o < |ins| && pos == Addr(ins, o) + 1
    ensures (|EncodeAll(ins)| + 1 - pos) % TWO32 == Distance(ins, o, |ins|)
  {
    AddrLast(ins);
    var d := Addr(ins, |ins|) - Addr(ins, o);
    assert |EncodeAll(ins)| + 1 - pos == d;
  }

  /** Setting the operand of a JFZ leaves the erased program alone. */
  lemma EraseRelink(ins: seq<Instr>, o: nat, off: nat)
    requires o < |ins| && ins[o].Jfz?
    ensures Erase(ins[o := Jfz(off)]) == Erase(ins)
  {
    var e, e' := Erase(ins), Erase(ins[o := Jfz(off)]);
    assert forall k :: 0 <= k < |ins| ==> e'[k] == e[k];
  }

  lemma InvAfterClose(T: seq<Token>, todo: seq<Token>, ins: seq<Instr>, opens: seq<nat>, blocks: seq<nat>, code: seq<byte>)
    requires TEnd !in T && TEnd !in todo && todo != [] && todo[0] == TJbn
    requires Inv(T, todo, ins, opens, blocks, code) && blocks != []
    ensures TEnd !in todo[1..]
    ensures var o, pos := opens[|opens| - 1], blocks[|blocks| - 1];
      && o < |ins| && pos + 4 <= |code|
      && Inv(T, todo[1..], Closed(ins, o, (|code| + 1 - pos) % TWO32), opens[..|opens| - 1], blocks[..|blocks| - 1], CloseCode(code, pos))
  {
    var o, pos := opens[|opens| - 1], blocks[|blocks| - 1];
    var ins' := Closed(ins, o, (|code| + 1 - pos) % TWO32);
    EmittedClose(ins, opens, blocks, code);
    ShiftClose(T, todo, ins, ins');
  }

  lemma ShiftClose(T: seq<Token>, todo: seq<Token>, ins: seq<Instr>, ins': seq<Instr>)
    requires TEnd !in T && TEnd !in todo && todo != [] && todo[0] == TJbn
    requires Erase(ins) + Translate(todo) == Translate(T)
    requires Erase(ins') == Erase(ins) + [Jbn(0)]
    ensures TEnd !in todo[1..] && Erase(ins') + Translate(todo[1..]) == Translate(T)
  {
    TranslateSimple(todo);
    ShiftOne(Erase(ins), Jbn(0), Translate(todo[1..]), Translate(T));
  }

  /** What the main loop of `compile` leaves, from a state where the
      invariant holds: an unmatched `]` only if the script's brackets dip
      below zero; otherwise code that is the encoding of the whole script's
      translation, operands linked. */
  ghost predicate Finishes(T: seq<Token>, r: Outcome, ins: seq<Instr>, opens: seq<nat>)
    requires TEnd !in T
  {
    && (r.Unmatched? ==> !NonNegative(Translate(T)))
    && (r.Done? ==> Erase(ins) == Translate(T) && Emitted(ins, opens, r.blocks, r.code))
  }

  lemma {:induction false} CompileFromCorrect(T: seq<Token>, s: Scan, ins: seq<Instr>, opens: seq<nat>, blocks: seq<nat>, code: seq<byte>)
    returns (ins': seq<Instr>, opens': seq<nat>)
    requires TEnd !in T && BlocksInCode(blocks, code)
    requires Inv(T, Tokens(s), ins, opens, blocks, code)
    ensures Finishes(T, CompileFrom(s, blocks, code), ins', opens')
    decreases Measure(s)
  {
    if s.current == TEnd {
      ins', opens' := ins, opens;
    } else if s.current == TJbn && blocks == [] {
      ins', opens' := ins, opens;
      UnmatchedClose(T, s, ins, opens, blocks, code);
    } else {
      var s1, ins1, opens1, blocks1, code1 := StepKeepsInv(T, s, ins, opens, blocks, code);
      ins', opens' := CompileFromCorrect(T, s1, ins1, opens1, blocks1, code1);
      FinishesSame(T, CompileFrom(s, blocks, code), CompileFrom(s1, blocks1, code1), ins', opens');
    }
  }

  /** One iteration of the loop that does not stop keeps the invariant, and
      brings the scanner closer to the end. */
  lemma StepKeepsInv(T: seq<Token>, s: Scan, ins: seq<Instr>, opens: seq<nat>, blocks: seq<nat>, code: seq<byte>)
    returns (s': Scan, ins': seq<Instr>, opens': seq<nat>, blocks': seq<nat>, code': seq<byte>)
    requires TEnd !in T && BlocksInCode(blocks, code) && s.current != TEnd
    requires s.current == TJbn ==> blocks != []
    requires Inv(T, Tokens(s), ins, opens, blocks, code)
    ensures Measure(s') < Measure(s) && BlocksInCode(blocks', code')
    ensures Inv(T, Tokens(s'), ins', opens', blocks', code')
    ensures CompileFrom(s, blocks, code) == CompileFrom(s', blocks', code')
  {
    var t := s.current;
    if IsRunToken(t) {
      s', ins', opens', blocks', code' := KeepRun(T, s, ins, opens, blocks, code);
    } else if t == TOut || t == TIn {
      s', ins', opens', blocks', code' := KeepOutIn(T, s, ins, opens, blocks, code);
    } else if t == TJfz {
      s', ins', opens', blocks', code' := KeepOpen(T, s, ins, opens, blocks, code);
    } else {
      s', ins', opens', blocks', code' := KeepClose(T, s, ins, opens, blocks, code);
    }
  }

  lemma EncodeOutIn(t: Token)
    requires t == TOut || t == TIn
    ensures Encode(SimpleInstr(t)) == [if t == TOut then OUT else IN]
    ensures WellFormed(SimpleInstr(t)) && !SimpleInstr(t).Jfz? && !SimpleInstr(t).Jbn?
  {
  }

  lemma KeepRun(T: seq<Token>, s: Scan, ins: seq<Instr>, opens: seq<nat>, blocks: seq<nat>, code: seq<byte>)
    returns (s': Scan, ins': seq<Instr>, opens': seq<nat>, blocks': seq<nat>, code': seq<byte>)
    requires TEnd !in T && BlocksInCode(blocks, code) && IsRunToken(s.current)
    requires Inv(T, Tokens(s), ins, opens, blocks, code)
    ensures Measure(s') < Measure(s) && BlocksInCode(blocks', code')
    ensures Inv(T, Tokens(s'), ins', opens', blocks', code')
    ensures CompileFrom(s, blocks, code) == CompileFrom(s', blocks', code')
  {
    var t := s.current;
    var run := CountRun(Next(s), t);
    var n := 1 + run.0;
    RunTokens(s);
    TranslateRun(Tokens(s));
    RunEncoding(t, n);
    InvAfterEmit(T, Tokens(s), Tokens(run.1), ins, opens, blocks, code, RunInstr(t, n));
    UnfoldRun(s, blocks, code, n, run.1);
    s', ins', opens', blocks', code' := run.1, ins + [RunInstr(t, n)], opens, blocks, code + RunCode(t, n);
  }

  /** Two loops with the same outcome finish alike. */
  lemma FinishesSame(T: seq<Token>, r: Outcome, r': Outcome, ins: seq<Instr>, opens: seq<nat>)
    requires TEnd !in T && r == r' && Finishes(T, r', ins, opens)
    ensures Finishes(T, r, ins, opens)
  {
  }

  lemma KeepOutIn(T: seq<Token>, s: Scan, ins: seq<Instr>, opens: seq<nat>, blocks: seq<nat>, code: seq<byte>)
    returns (s': Scan, ins': seq<Instr>, opens': seq<nat>, blocks': seq<nat>, code': seq<byte>)
    requires TEnd !in T && BlocksInCode(blocks, code) && (s.current == TOut || s.current == TIn)
    requires Inv(T, Tokens(s), ins, opens, blocks, code)
    ensures Measure(s') < Measure(s) && BlocksInCode(blocks', code')
    ensures Inv(T, Tokens(s'), ins', opens', blocks', code')
    ensures CompileFrom(s, blocks, code) == CompileFrom(s', blocks', code')
  {
    var x := SimpleInstr(s.current);
    var b: byte := if s.current == TOut then OUT else IN;
    UnfoldOutIn(s, blocks, code);
    NextDropsCurrent(s);
    TranslateSimple(Tokens(s));
    EncodeOutIn(s.current);
    InvAfterEmit(T, Tokens(s), Tokens(Next(s)), ins, opens, blocks, code, x);
    s', ins', opens', blocks', code' := Next(s), ins + [x], opens, blocks, code + [b];
  }

  lemma KeepOpen(T: seq<Token>, s: Scan, ins: seq<Instr>, opens: seq<nat>, blocks: seq<nat>, code: seq<byte>)
    returns (s': Scan, ins': seq<Instr>, opens': seq<nat>, blocks': seq<nat>, code': seq<byte>)
    requires TEnd !in T && BlocksInCode(blocks, code) && s.current == TJfz
    requires Inv(T, Tokens(s), ins, opens, blocks, code)
    ensures Measure(s') < Measure(s) && BlocksInCode(blocks', code')
    ensures Inv(T, Tokens(s'), ins', opens', blocks', code')
    ensures CompileFrom(s, blocks, code) == CompileFrom(s', blocks', code')
  {
    UnfoldOpen(s, blocks, code);
    NextDropsCurrent(s);
    InvAfterOpen(T, Tokens(s), Tokens(Next(s)), ins, opens, blocks, code);
    s', ins', opens', blocks', code' := Next(s), ins + [Jfz(0)], opens + [|ins|], blocks + [|code| + 1], code + [JFZ, 0, 0, 0, 0];
  }

  /** A `]` with no open block: the loop stops, and the script dips below
      depth zero. */
  lemma UnmatchedClose(T: seq<Token>, s: Scan, ins: seq<Instr>, opens: seq<nat>, blocks: seq<nat>, code: seq<byte>)
    requires TEnd !in T && BlocksInCode(blocks, code) && s.current == TJbn && blocks == []
    requires Inv(T, Tokens(s), ins, opens, blocks, code)
    ensures Finishes(T, CompileFrom(s, blocks, code), ins, opens)
  {
    UnfoldClose(s, blocks, code);
    DipAtClose(T, Tokens(s), ins, opens, blocks, code);
  }

  /** A `]` closing the innermost open block: the loop goes on from the next
      state with the invariant kept. */
  lemma KeepClose(T: seq<Token>, s: Scan, ins: seq<Instr>, opens: seq<nat>, blocks: seq<nat>, code: seq<byte>)
    returns (s': Scan, ins': seq<Instr>, opens': seq<nat>, blocks': seq<nat>, code': seq<byte>)
    requires TEnd !in T && BlocksInCode(blocks, code) && s.current == TJbn && blocks != []
    requires Inv(T, Tokens(s), ins, opens, blocks, code)
    ensures Measure(s') < Measure(s) && BlocksInCode(blocks', code')
    ensures Inv(T, Tokens(s'), ins', opens', blocks', code')
    ensures CompileFrom(s, blocks, code) == CompileFrom(s', blocks', code')
  {
    var o, pos := opens[|opens| - 1], blocks[|blocks| - 1];
    UnfoldClose(s, blocks, code);
    NextDropsCurrent(s);
    InvAfterClose(T, Tokens(s), ins, opens, blocks, code);
    s', ins', opens', blocks', code' := Next(s), Closed(ins, o, (|code| + 1 - pos) % TWO32), opens[..|opens| - 1], blocks[..|blocks| - 1], CloseCode(code, pos);
  }
}
