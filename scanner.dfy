/**
 * The scanner of code.c: it reads the source one byte at a time, skips every
 * byte that is not one of the eight commands, and keeps a line and column
 * position (the column counts every byte read on the line, including the
 * command itself and the end-of-stream read).
 */
module Scanner {
  import opened Bytes
  import opened Streams

  datatype Token = TNxt | TPrv | TInc | TDec | TOut | TIn | TJfz | TJbn | TEnd

  /** The enum value of a token (`token_t`), equal to its opcode for the first eight. */
  function TokenCode(t: Token): (b: byte)
    ensures b <= 8
  {
    match t
    case TNxt => 0 case TPrv => 1 case TInc => 2 case TDec => 3
    case TOut => 4 case TIn => 5 case TJfz => 6 case TJbn => 7
    case TEnd => 8
  }

  const NEWLINE: byte := 10

  predicate IsCommand(b: byte)
  {
    b in {'>' as int, '<' as int, '+' as int, '-' as int, '.' as int, ',' as int, '[' as int, ']' as int}
  }

  function TokenOf(b: byte): (t: Token)
    requires IsCommand(b)
    ensures t != TEnd
  {
    if b == '>' as int then TNxt
    else if b == '<' as int then TPrv
    else if b == '+' as int then TInc
    else if b == '-' as int then TDec
    else if b == '.' as int then TOut
    else if b == ',' as int then TIn
    else if b == '[' as int then TJfz
    else TJbn
  }

  /** The command character of a token (the inverse of TokenOf). */
  function CharOf(t: Token): (b: byte)
    requires t != TEnd
    ensures IsCommand(b) && TokenOf(b) == t
  {
    match t
    case TNxt => '>' as int case TPrv => '<' as int case TInc => '+' as int
    case TDec => '-' as int case TOut => '.' as int case TIn => ',' as int
    case TJfz => '[' as int case TJbn => ']' as int
  }

  lemma CharOfTokenOf(b: byte)
    requires IsCommand(b)
    ensures CharOf(TokenOf(b)) == b
  {
  }

  /** The commands of a byte string, in order: what the scanner yields before TEnd. */
  function Commands(s: seq<byte>): (ts: seq<Token>)
    ensures |ts| <= |s|
    ensures TEnd !in ts
  {
    if s == [] then []
    else (if IsCommand(s[0]) then [TokenOf(s[0])] else []) + Commands(s[1..])
  }

  datatype Pos = Pos(line: nat, col: nat)

  /** The position after reading one byte that is not a command. */
  function StepPos(p: Pos, b: byte): Pos
  {
    if b == NEWLINE then Pos(p.line + 1, 0) else Pos(p.line, p.col + 1)
  }

  /** The position after reading `bs`, left to right. */
  function After(p: Pos, bs: seq<byte>): Pos
    decreases |bs|
  {
    if bs == [] then p else After(StepPos(p, bs[0]), bs[1..])
  }

  function Count(b: byte, bs: seq<byte>): nat
  {
    if bs == [] then 0 else (if bs[0] == b then 1 else 0) + Count(b, bs[1..])
  }

  /** The line advances once per newline read; on a line with no newline the
      column advances once per byte. */
  lemma {:induction false} AfterCounts(p: Pos, bs: seq<byte>)
    ensures After(p, bs).line == p.line + Count(NEWLINE, bs)
    ensures NEWLINE !in bs ==> After(p, bs).col == p.col + |bs|
    ensures bs != [] && bs[|bs| - 1] == NEWLINE ==> After(p, bs).col == 0
    decreases |bs|
  {
    if bs != [] {
      AfterCounts(StepPos(p, bs[0]), bs[1..]);
      if |bs| == 1 {
      } else {
        assert bs[1..][|bs[1..]| - 1] == bs[|bs| - 1];
      }
    }
  }

  /** Reading `xs` and then `ys` ends where reading `xs + ys` does. */
  lemma {:induction false} AfterConcat(p: Pos, xs: seq<byte>, ys: seq<byte>)
    ensures After(p, xs + ys) == After(After(p, xs), ys)
    decreases |xs|
  {
    if xs == [] {
      assert xs + ys == ys;
    } else {
      assert (xs + ys)[0] == xs[0] && (xs + ys)[1..] == xs[1..] + ys;
      AfterConcat(StepPos(p, xs[0]), xs[1..], ys);
    }
  }

  /** After the last newline read, the column is the number of bytes read
      since it, on the line after the newlines read so far. */
  lemma AfterLastNewline(p: Pos, xs: seq<byte>, ys: seq<byte>)
    requires NEWLINE !in ys
    ensures After(p, xs + [NEWLINE] + ys) == Pos(p.line + Count(NEWLINE, xs) + 1, |ys|)
  {
    var q := After(p, xs);
    AfterConcat(p, xs, [NEWLINE]);
    assert After(q, [NEWLINE]) == After(Pos(q.line + 1, 0), []);
    AfterConcat(p, xs + [NEWLINE], ys);
    AfterCounts(p, xs);
    AfterCounts(Pos(q.line + 1, 0), ys);
    CountAbsent(NEWLINE, ys);
  }

  lemma {:induction false} CountAbsent(b: byte, bs: seq<byte>)
    requires b !in bs
    ensures Count(b, bs) == 0
  {
    if bs != [] {
      assert b !in bs[1..];
      CountAbsent(b, bs[1..]);
    }
  }

  /** Scanner state: the current token, the unread bytes and the position. */
  datatype Scan = Scan(current: Token, rest: seq<byte>, line: nat, col: nat)

  /** _scanner_advance: read until a command or the end of the stream. */
  function Advance(rest: seq<byte>, line: nat, col: nat): (r: Scan)
    ensures |r.rest| <= |rest|
    decreases |rest|
  {
    var c := ReadResult(rest);
    var rest' := AfterRead(rest);
    if c >= 0 && IsCommand(c) then
      Scan(TokenOf(c), rest', line, col + 1)
    else if c < 0 then
      Scan(TEnd, rest', line, col + 1)
    else if c == NEWLINE then
      Advance(rest', line + 1, 0)
    else
      Advance(rest', line, col + 1)
  }

  /** The token an advance reads is the first command of the input, TEnd
      exactly when there is none: only non-commands are skipped. */
  lemma {:induction false} AdvanceReadsFirstCommand(rest: seq<byte>, line: nat, col: nat)
    ensures var r := Advance(rest, line, col);
      && (r.current == TEnd <==> Commands(rest) == [])
      && (r.current == TEnd ==> r.rest == [])
      && (r.current != TEnd ==> |r.rest| < |rest| && Commands(rest) == [r.current] + Commands(r.rest))
    decreases |rest|
  {
    if rest != [] && !IsCommand(rest[0]) {
      if rest[0] == NEWLINE {
        AdvanceReadsFirstCommand(rest[1..], line + 1, 0);
      } else {
        AdvanceReadsFirstCommand(rest[1..], line, col + 1);
      }
    }
  }

  /** The position after an advance is that after every byte it read, the
      end-of-stream read advancing the column once more. */
  lemma {:induction false} AdvancePosition(rest: seq<byte>, line: nat, col: nat)
    ensures var r := Advance(rest, line, col);
      var consumed := rest[..|rest| - |r.rest|];
      && (r.current != TEnd ==> Pos(r.line, r.col) == After(Pos(line, col), consumed))
      && (r.current == TEnd ==> Pos(r.line, r.col) == Pos(After(Pos(line, col), rest).line, After(Pos(line, col), rest).col + 1))
    decreases |rest|
  {
    var r := Advance(rest, line, col);
    if rest == [] {
    } else if IsCommand(rest[0]) {
      assert rest[..|rest| - |r.rest|] == [rest[0]];
    } else {
      AdvanceSkips(rest, line, col);
      if rest[0] == NEWLINE {
        AdvancePosition(rest[1..], line + 1, 0);
      } else {
        AdvancePosition(rest[1..], line, col + 1);
      }
      assert rest[..|rest| - |r.rest|] == [rest[0]] + rest[1..][..|rest[1..]| - |r.rest|];
    }
  }

  /** An advance over a leading non-command continues from the position after it. */
  lemma AdvanceSkips(rest: seq<byte>, line: nat, col: nat)
    requires rest != [] && !IsCommand(rest[0])
    ensures rest[0] == NEWLINE ==> Advance(rest, line, col) == Advance(rest[1..], line + 1, 0)
    ensures rest[0] != NEWLINE ==> Advance(rest, line, col) == Advance(rest[1..], line, col + 1)
  {
  }

  /** One read of an advance: it stops at a command or at the end of the
      stream, and otherwise goes on from the byte's successor position. */
  lemma AdvanceUnfold(rest: seq<byte>, line: nat, col: nat)
    ensures var c, rest' := ReadResult(rest), AfterRead(rest);
      && (c >= 0 && IsCommand(c) ==> Advance(rest, line, col) == Scan(TokenOf(c), rest', line, col + 1))
      && (c < 0 ==> Advance(rest, line, col) == Scan(TEnd, rest', line, col + 1))
      && (c >= 0 && !IsCommand(c) && c == NEWLINE as int ==> Advance(rest, line, col) == Advance(rest', line + 1, 0))
      && (c >= 0 && !IsCommand(c) && c != NEWLINE as int ==> Advance(rest, line, col) == Advance(rest', line, col + 1))
  {
  }

  /** An advance reads at least one byte when there is one; at the end of
      the stream it yields TEnd. */
  lemma AdvanceShrinks(rest: seq<byte>, line: nat, col: nat)
    ensures rest == [] ==> Advance(rest, line, col) == Scan(TEnd, [], line, col + 1)
    ensures rest != [] ==> |Advance(rest, line, col).rest| < |rest|
  {
  }

  /** scanner_init: line 1, column 0, first token read; the scanner then
      yields the commands of the source, in order. */
  function Init(source: seq<byte>): (r: Scan)
    ensures Tokens(r) == Commands(source)
  {
    AdvanceReadsFirstCommand(source, 1, 0);
    Advance(source, 1, 0)
  }

  /** scanner_next / scanner_drop: the state after one more advance, which
      from a command is closer to the end (NextDropsCurrent: it drops just
      that command). */
  function Next(s: Scan): (r: Scan)
    ensures s.current != TEnd ==> Measure(r) < Measure(s)
  {
    AdvanceShrinks(s.rest, s.line, s.col);
    Advance(s.rest, s.line, s.col)
  }

  /** The tokens a state has still to yield before TEnd, its current one first. */
  function Tokens(s: Scan): (ts: seq<Token>)
    ensures TEnd !in ts
    ensures ts == [] <==> s.current == TEnd
  {
    if s.current == TEnd then [] else [s.current] + Commands(s.rest)
  }

  /** A measure that every advance from a state holding a command decreases. */
  function Measure(s: Scan): nat
  {
    |s.rest| + if s.current == TEnd then 0 else 1
  }

  /** The state after `n` advances. */
  function Iterate(s: Scan, n: nat): Scan
    decreases n
  {
    if n == 0 then s else Iterate(Next(s), n - 1)
  }

  /** One advance consumes exactly the current token. */
  lemma NextDropsCurrent(s: Scan)
    requires s.current != TEnd
    ensures Tokens(Next(s)) == Tokens(s)[1..]
  {
    AdvanceReadsFirstCommand(s.rest, s.line, s.col);
  }

  /** The scanner started on `source` yields the commands of `source` in
      order, then TEnd. */
  lemma {:induction false} ScannerYieldsCommands(source: seq<byte>)
    ensures Tokens(Init(source)) == Commands(source)
  {
    AdvanceReadsFirstCommand(source, 1, 0);
  }

  /** The state after k advances holds the k-th token still to come, and
      TEnd once they are used up. */
  lemma {:induction false} IterateYields(s: Scan, k: nat)
    requires k <= |Tokens(s)|
    ensures k < |Tokens(s)| ==> Iterate(s, k).current == Tokens(s)[k]
    ensures k == |Tokens(s)| ==> Iterate(s, k).current == TEnd
    decreases k
  {
    if k > 0 {
      assert s.current != TEnd;
      NextDropsCurrent(s);
      var s1 := Next(s);
      IterateYields(s1, k - 1);
      assert Iterate(s, k) == Iterate(s1, k - 1);
    }
  }

  class Scanner {
    var current: Token
    const source: ByteSource
    var line: nat
    var col: nat

    ghost predicate Valid()
      reads this, source
    {
      source.Valid()
    }

    ghost function State(): Scan
      reads this, source
      requires Valid()
    {
      Scan(current, source.Remaining(), line, col)
    }

    /** scanner_init */
    constructor (source: ByteSource)
      requires source.Valid()
      modifies source
      ensures Valid() && this.source == source
      ensures State() == Init(old(source.Remaining()))
    {
      this.source := source;
      line := 1;
      col := 0;
      current := TEnd;
      new;
      AdvanceLoop();
    }

    /** _scanner_advance */
    method AdvanceLoop()
      requires Valid()
      modifies this, source
      ensures Valid()
      ensures State() == Advance(old(source.Remaining()), old(line), old(col))
    {
      ghost var goal := Advance(source.Remaining(), line, col);
      var ln, cn := line, col;
      var tok := TEnd;
      var done := false;
      while !done
        invariant source.Valid()
        invariant !done ==> Advance(source.Remaining(), ln, cn) == goal
        invariant done ==> Scan(tok, source.Remaining(), ln, cn) == goal
        decreases !done, |source.Remaining()|
      {
        AdvanceUnfold(source.Remaining(), ln, cn);
        var c := source.Read1();
        cn := cn + 1;
        if c >= 0 && IsCommand(c) {
          tok := TokenOf(c);
          done := true;
        } else if c < 0 {
          tok := TEnd;
          done := true;
        } else if c == NEWLINE {
          ln := ln + 1;
          cn := 0;
        }
      }
      current, line, col := tok, ln, cn;
    }

    /** scanner_peek */
    function Peek(): (t: Token)
      reads this, source
      requires Valid()
      ensures t == State().current
    {
      current
    }

    /** scanner_next: the current token, then advance */
    method NextToken() returns (t: Token)
      requires Valid()
      modifies this, source
      ensures Valid()
      ensures t == old(State()).current
      ensures State() == Next(old(State()))
    {
      t := current;
      AdvanceLoop();
    }

    /** scanner_drop */
    method Drop()
      requires Valid()
      modifies this, source
      ensures Valid()
      ensures State() == Next(old(State()))
    {
      AdvanceLoop();
    }
  }
}
