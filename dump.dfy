/**
 * The decode loop of `hgbf_code_dump` (code.c): from the start of the code,
 * read an opcode, look its operand width up in the table, read that many
 * bytes little-endian, and go on after them; stop with "???" at a byte that
 * is no opcode.  The printed lines are returned as (address, instruction)
 * pairs.
 */
module Dump {
  import opened Bytes
  import opened Opcodes
  import opened Program

  datatype Line = Line(addr: nat, instr: Instr)

  /** The listing of `ins`: each instruction at its address. */
  ghost predicate Lists(listing: seq<Line>, ins: seq<Instr>)
  {
    |listing| == |ins| && forall k :: 0 <= k < |ins| ==> listing[k] == Line(Addr(ins, k), ins[k])
  }

  lemma ListsSnoc(listing: seq<Line>, ins: seq<Instr>, i: Instr)
    requires Lists(listing, ins)
    ensures Lists(listing + [Line(Addr(ins + [i], |ins|), i)], ins + [i])
  {
    forall k | 0 <= k < |ins| ensures Addr(ins + [i], k) == Addr(ins, k) {
      PrefixAddr(ins, [i], k);
    }
  }

  /** What the dump loop knows after listing `done` up to offset `p`. */
  ghost predicate Listed(code: seq<byte>, p: nat, done: seq<Instr>, listing: seq<Line>)
  {
    && p <= |code| && p == |EncodeAll(done)|
    && Lists(listing, done)
    && DecodeFrom(code, 0) == (done + DecodeFrom(code, p).0, DecodeFrom(code, p).1)
  }

  /** One more instruction decoded at `p` extends the listing by it. */
  lemma ListedStep(code: seq<byte>, p: nat, done: seq<Instr>, listing: seq<Line>, i: Instr, next: nat)
    requires p < |code| && Listed(code, p, done, listing) && DecodeAt(code, p) == Ok(i, next)
    ensures Listed(code, next, done + [i], listing + [Line(p, i)])
  {
    ListingExtends(code, p, done, i, next);
    ListsSnoc(listing, done, i);
    AddrLast(done);
    EncodeAllSnoc(done, i);
    WidthIsTableWidth(i);
  }

  lemma ListingExtends(code: seq<byte>, p: nat, done: seq<Instr>, i: Instr, next: nat)
    requires p < |code| && DecodeAt(code, p) == Ok(i, next)
    requires DecodeFrom(code, 0) == (done + DecodeFrom(code, p).0, DecodeFrom(code, p).1)
    ensures DecodeFrom(code, 0) == ((done + [i]) + DecodeFrom(code, next).0, DecodeFrom(code, next).1)
  {
    assert done + ([i] + DecodeFrom(code, next).0) == (done + [i]) + DecodeFrom(code, next).0;
  }

  /** The dump stops where the listing so far is all there is. */
  lemma ListedStop(code: seq<byte>, p: nat, done: seq<Instr>, listing: seq<Line>, end: DumpEnd)
    requires Listed(code, p, done, listing) && DecodeFrom(code, p) == ([], end)
    ensures Lists(listing, DecodeFrom(code, 0).0) && end == DecodeFrom(code, 0).1
  {
    assert done + [] == done;
  }

  /** The loop body, on values: a byte past the table stops the dump, an
      operand running past the end stops it, and otherwise the decoded
      instruction is listed at `p`. */
  lemma ListedBad(code: seq<byte>, p: nat, done: seq<Instr>, listing: seq<Line>)
    requires Listed(code, p, done, listing) && p < |code| && code[p] as nat >= |OPCODE_LIST|
    ensures Lists(listing, DecodeFrom(code, 0).0) && DecodeFrom(code, 0).1 == StoppedBadOpcode
  {
    ListedStop(code, p, done, listing, StoppedBadOpcode);
  }

  lemma ListedTruncated(code: seq<byte>, p: nat, done: seq<Instr>, listing: seq<Line>)
    requires Listed(code, p, done, listing) && p < |code| && IsOpcode(code[p])
    requires p + 1 + OperandWidth(code[p]) > |code|
    ensures Lists(listing, DecodeFrom(code, 0).0) && DecodeFrom(code, 0).1 == StoppedTruncated
  {
    ListedStop(code, p, done, listing, StoppedTruncated);
  }

  lemma ListedEnd(code: seq<byte>, p: nat, done: seq<Instr>, listing: seq<Line>)
    requires Listed(code, p, done, listing) && p == |code|
    ensures Lists(listing, DecodeFrom(code, 0).0) && DecodeFrom(code, 0).1 == Completed
  {
    ListedStop(code, p, done, listing, Completed);
  }

  lemma ListedStart(code: seq<byte>)
    ensures Listed(code, 0, [], [])
  {
    assert EncodeAll([]) == [];
    assert [] + DecodeFrom(code, 0).0 == DecodeFrom(code, 0).0;
  }

  /** A byte indexes the opcode table exactly when it is an opcode. */
  lemma OpcodeIndexes(b: byte)
    ensures IsOpcode(b) <==> b as nat < |OPCODE_LIST|
  {
  }

  /** hgbf_code_dump: the lines it prints are the decoding of the code,
      each at the address of its opcode, and it ends as DecodeFrom says. */
  method DumpCode(code: array<byte>) returns (listing: seq<Line>, end: DumpEnd)
    ensures Lists(listing, DecodeFrom(code[..], 0).0)
    ensures end == DecodeFrom(code[..], 0).1
  {
    ghost var c := code[..];
    ghost var done: seq<Instr> := [];
    var p := 0;
    listing := [];
    ListedStart(c);
    while p < code.Length
      invariant Listed(c, p, done, listing)
      decreases code.Length - p
    {
      var d := DecodeOne(code, p);
      match d
      case BadOpcode =>
        ListedBad(c, p, done, listing);
        return listing, StoppedBadOpcode;
      case Truncated =>
        ListedTruncated(c, p, done, listing);
        return listing, StoppedTruncated;
      case Ok(i, next) =>
        ListedStep(c, p, done, listing, i, next);
        listing := listing + [Line(p, i)];
        done := done + [i];
        p := next;
    }
    ListedEnd(c, p, done, listing);
    end := Completed;
  }

  /** One pass of the dump loop at offset `p`: a byte past the name table
      stops the dump, so does an operand running past the end, and
      otherwise the instruction is read from the opcode and its operand. */
  method DecodeOne(code: array<byte>, p: nat) returns (d: Decoded)
    requires p < code.Length
    ensures d == DecodeAt(code[..], p)
  {
    var op := code[p];
    OpcodeIndexes(op);
    if op as nat >= |OPCODE_LIST| {
      return BadOpcode;
    }
    var w := OperandWidth(op);
    if p + 1 + w > code.Length {
      return Truncated;
    }
    var operand := code[p + 1..p + 1 + w];
    assert operand == code[..][p + 1..p + 1 + w];
    d := Ok(Make(op, FromLittleEndian(operand)), p + 1 + w);
  }
}
