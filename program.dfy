/**
 * Bytecode programs as instruction sequences: each instruction is one opcode
 * byte followed by its operand stored little-endian in the width opcode.h
 * gives it.  The decoder here is the one `hgbf_code_dump` runs.
 */
module Program {
  import opened Bytes
  import opened Opcodes
  import opened Seqs

  datatype Instr =
    | Nxt | Prv | Inc | Dec | Out | In
    | Jfz(off: nat) | Jbn(off: nat)
    | Hlt
    | NxtN(n: nat) | PrvN(n: nat) | IncN(n: nat) | DecN(n: nat)

  function OpcodeOf(i: Instr): (op: byte)
    ensures IsOpcode(op)
  {
    match i
    case Nxt => NXT case Prv => PRV case Inc => INC case Dec => DEC
    case Out => OUT case In => IN case Jfz(_) => JFZ case Jbn(_) => JBN
    case Hlt => HLT case NxtN(_) => NXTN case PrvN(_) => PRVN
    case IncN(_) => INCN case DecN(_) => DECN
  }

  function OperandOf(i: Instr): nat
  {
    match i
    case Jfz(off) => off case Jbn(off) => off
    case NxtN(n) => n case PrvN(n) => n case IncN(n) => n case DecN(n) => n
    case _ => 0
  }

  /** The instruction with opcode `op` and operand `x` (ignored when `op`
      takes none). */
  function Make(op: byte, x: nat): (i: Instr)
    requires IsOpcode(op)
    ensures OpcodeOf(i) == op
    ensures OperandOf(i) == if Width(i) == 0 then 0 else x
  {
    if op == NXT then Nxt else if op == PRV then Prv
    else if op == INC then Inc else if op == DEC then Dec
    else if op == OUT then Out else if op == IN then In
    else if op == JFZ then Jfz(x) else if op == JBN then Jbn(x)
    else if op == HLT then Hlt else if op == NXTN then NxtN(x)
    else if op == PRVN then PrvN(x) else if op == INCN then IncN(x)
    else DecN(x)
  }

  /** Bytes of the operand that follows the opcode, read off the
      instruction's shape. It repeats the opcode table's width so the
      encoder and decoder need no table lookup; WidthIsTableWidth ties the
      two together. */
  function Width(i: Instr): nat
  {
    match i
    case Jfz(_) => 4 case Jbn(_) => 4
    case NxtN(_) => 2 case PrvN(_) => 2
    case IncN(_) => 1 case DecN(_) => 1
    case _ => 0
  }

  /** The width of each instruction's operand is the one opcode.h gives its
      opcode. */
  lemma WidthIsTableWidth(i: Instr)
    ensures Width(i) == OperandWidth(OpcodeOf(i))
  {
  }

  /** The operand fits in its field. */
  predicate WellFormed(i: Instr)
  {
    OperandOf(i) < Pow256(Width(i))
  }

  predicate AllWellFormed(ins: seq<Instr>)
  {
    forall k :: 0 <= k < |ins| ==> WellFormed(ins[k])
  }

  /** An instruction is determined by its opcode and operand. */
  lemma MakeOfParts(i: Instr)
    ensures Make(OpcodeOf(i), OperandOf(i)) == i
  {
  }

  function Encode(i: Instr): (bs: seq<byte>)
    ensures |bs| == 1 + Width(i) && bs[0] == OpcodeOf(i)
  {
    [OpcodeOf(i)] + LittleEndian(OperandOf(i), Width(i))
  }

  /** The bytes of a program, instruction after instruction. */
  function EncodeAll(ins: seq<Instr>): (bs: seq<byte>)
    ensures bs == [] <==> ins == []
  {
    if ins == [] then [] else EncodeAll(ins[..|ins| - 1]) + Encode(ins[|ins| - 1])
  }

  /** Address of instruction `k`: the bytes of the instructions before it. */
  function Addr(ins: seq<Instr>, k: nat): nat
    requires k <= |ins|
  {
    |EncodeAll(ins[..k])|
  }

  lemma EncodeAllSnoc(ins: seq<Instr>, x: Instr)
    ensures EncodeAll(ins + [x]) == EncodeAll(ins) + Encode(x)
  {
    assert (ins + [x])[..|ins|] == ins;
  }

  lemma {:induction false} EncodeAllSplit(a: seq<Instr>, b: seq<Instr>)
    ensures EncodeAll(a + b) == EncodeAll(a) + EncodeAll(b)
    decreases |b|
  {
    if b == [] {
      assert a + b == a;
    } else {
      var b', x := b[..|b| - 1], b[|b| - 1];
      assert b == b' + [x] && a + b == (a + b') + [x];
      EncodeAllSplit(a, b');
      EncodeAllSnoc(a + b', x);
      EncodeAllSnoc(b', x);
    }
  }

  /** The bytes from Addr(k) to Addr(k + 1) are the encoding of instruction
      k, preceded by those of the instructions before it. */
  lemma EncodeAllAt(ins: seq<Instr>, k: nat)
    requires k < |ins|
    ensures Addr(ins, k + 1) == Addr(ins, k) + 1 + Width(ins[k])
    ensures Addr(ins, k + 1) <= |EncodeAll(ins)|
    ensures EncodeAll(ins)[..Addr(ins, k + 1)] == EncodeAll(ins[..k]) + Encode(ins[k])
  {
    assert ins[..k + 1] == ins[..k] + [ins[k]];
    EncodeAllSnoc(ins[..k], ins[k]);
    EncodeAllPrefix(ins, k + 1);
  }

  /** The bytes of the first `j` instructions begin the bytes of all of them. */
  lemma EncodeAllPrefix(ins: seq<Instr>, j: nat)
    requires j <= |ins|
    ensures |EncodeAll(ins[..j])| <= |EncodeAll(ins)|
    ensures EncodeAll(ins)[..|EncodeAll(ins[..j])|] == EncodeAll(ins[..j])
  {
    var head, tail := ins[..j], ins[j..];
    assert ins == head + tail;
    EncodeAllSplit(head, tail);
    PrefixOfConcat(EncodeAll(head), EncodeAll(tail));
  }

  /** Instructions appended after `a` do not move those of `a`. */
  lemma PrefixAddr(a: seq<Instr>, b: seq<Instr>, k: nat)
    requires k <= |a|
    ensures Addr(a + b, k) == Addr(a, k)
  {
    assert (a + b)[..k] == a[..k];
  }

  lemma AddrLast(ins: seq<Instr>)
    ensures Addr(ins, |ins|) == |EncodeAll(ins)|
  {
    assert ins[..|ins|] == ins;
  }

  /** What decoding one instruction at `p` gives. */
  datatype Decoded = Ok(instr: Instr, next: nat) | BadOpcode | Truncated

  /** One step of the dump loop: the opcode at `p` names an instruction, and
      its operand lies inside the code (reading past the end is undefined in
      C; here it is the outcome Truncated). */
  function DecodeAt(code: seq<byte>, p: nat): (d: Decoded)
    requires p < |code|
    ensures d.Ok? ==> p < d.next <= |code| && WellFormed(d.instr)
  {
    var op := code[p];
    if !IsOpcode(op) then BadOpcode
    else
      var w := OperandWidth(op);
      if p + 1 + w > |code| then Truncated
      else
        var x := FromLittleEndian(code[p + 1..p + 1 + w]);
        FromLittleEndianBound(code[p + 1..p + 1 + w]);
        Ok(Make(op, x), p + 1 + w)
  }

  /** Decoding the encoding of a well-formed instruction gives it back, and
      the next one starts right after its operand. */
  lemma DecodeEncoded(code: seq<byte>, p: nat, i: Instr)
    requires WellFormed(i) && p + 1 + Width(i) <= |code|
    requires code[p..p + 1 + Width(i)] == Encode(i)
    ensures DecodeAt(code, p) == Ok(i, p + 1 + Width(i))
  {
    EncodedParts(code, p, i);
    OperandRoundTrip(i);
    MakeOfParts(i);
    DecodeAtOpcode(code, p);
  }

  lemma EncodedParts(code: seq<byte>, p: nat, i: Instr)
    requires p + 1 + Width(i) <= |code|
    requires code[p..p + 1 + Width(i)] == Encode(i)
    ensures code[p] == OpcodeOf(i) && OperandWidth(code[p]) == Width(i)
    ensures code[p + 1..p + 1 + Width(i)] == LittleEndian(OperandOf(i), Width(i))
  {
    var w := Width(i);
    WidthIsTableWidth(i);
    assert code[p] == code[p..p + 1 + w][0];
    assert code[p + 1..p + 1 + w] == code[p..p + 1 + w][1..];
  }

  lemma OperandRoundTrip(i: Instr)
    requires WellFormed(i)
    ensures FromLittleEndian(LittleEndian(OperandOf(i), Width(i))) == OperandOf(i)
  {
    LittleEndianRoundTrip(OperandOf(i), Width(i));
    DivModUnique(OperandOf(i), Pow256(Width(i)), 0, OperandOf(i));
  }

  lemma DecodeAtOpcode(code: seq<byte>, p: nat)
    requires p < |code| && IsOpcode(code[p]) && p + 1 + OperandWidth(code[p]) <= |code|
    ensures DecodeAt(code, p) == Ok(Make(code[p], FromLittleEndian(code[p + 1..p + 1 + OperandWidth(code[p])])), p + 1 + OperandWidth(code[p]))
  {
  }

  /** An instruction decoded from `code` is encoded by exactly the bytes read. */
  lemma EncodeDecoded(code: seq<byte>, p: nat)
    requires p < |code| && DecodeAt(code, p).Ok?
    ensures code[p..DecodeAt(code, p).next] == Encode(DecodeAt(code, p).instr)
  {
    var d := DecodeAt(code, p);
    var w := OperandWidth(code[p]);
    var bs := code[p + 1..p + 1 + w];
    LittleEndianInverse(bs);
    WidthIsTableWidth(d.instr);
    if w == 0 {
      assert bs == [];
    }
    assert code[p..d.next] == [code[p]] + bs;
  }

  /** Instruction `k` of a well-formed program decodes at its address. */
  lemma DecodeProgramAt(ins: seq<Instr>, k: nat)
    requires AllWellFormed(ins) && k < |ins|
    ensures Addr(ins, k) < |EncodeAll(ins)|
    ensures DecodeAt(EncodeAll(ins), Addr(ins, k)) == Ok(ins[k], Addr(ins, k + 1))
  {
    var code := EncodeAll(ins);
    EncodeAllAt(ins, k);
    var p := Addr(ins, k);
    assert code[p..p + 1 + Width(ins[k])] == Encode(ins[k]) by {
      assert code[p..p + 1 + Width(ins[k])] == code[..Addr(ins, k + 1)][p..];
    }
    DecodeEncoded(code, p, ins[k]);
  }

  /** How a dump ends: it reached the end of the code, or stopped at a byte
      that is no opcode (and printed "???"), or an operand ran past the end. */
  datatype DumpEnd = Completed | StoppedBadOpcode | StoppedTruncated

  /** The instructions `hgbf_code_dump` lists from `p` on, and how it ends. */
  function DecodeFrom(code: seq<byte>, p: nat): (r: (seq<Instr>, DumpEnd))
    requires p <= |code|
    ensures AllWellFormed(r.0)
    decreases |code| - p
  {
    if p == |code| then ([], Completed)
    else
      match DecodeAt(code, p)
      case BadOpcode => ([], StoppedBadOpcode)
      case Truncated => ([], StoppedTruncated)
      case Ok(i, next) =>
        var r := DecodeFrom(code, next);
        ([i] + r.0, r.1)
  }

  /** Decoding a well-formed program lists it completely. */
  lemma DecodeProgram(ins: seq<Instr>)
    requires AllWellFormed(ins)
    ensures DecodeFrom(EncodeAll(ins), 0) == (ins, Completed)
  {
    assert ins[..0] == [];
    DecodeProgramFrom(ins, 0);
    assert ins[0..] == ins;
  }

  lemma {:induction false} DecodeProgramFrom(ins: seq<Instr>, k: nat)
    requires AllWellFormed(ins) && k <= |ins|
    ensures Addr(ins, k) <= |EncodeAll(ins)|
    ensures DecodeFrom(EncodeAll(ins), Addr(ins, k)) == (ins[k..], Completed)
    decreases |ins| - k
  {
    if k == |ins| {
      AddrLast(ins);
    } else {
      DecodeProgramAt(ins, k);
      DecodeProgramFrom(ins, k + 1);
      DecodeFromStep(EncodeAll(ins), Addr(ins, k));
      SliceCons(ins, k);
    }
  }

  /** A listing that completes re-encodes to exactly the code it came from. */
  lemma {:induction false} DecodedEncodes(code: seq<byte>, p: nat)
    requires p <= |code| && DecodeFrom(code, p).1 == Completed
    ensures EncodeAll(DecodeFrom(code, p).0) == code[p..]
    decreases |code| - p
  {
    if p < |code| {
      var d := DecodeAt(code, p);
      var rest := DecodeFrom(code, d.next).0;
      DecodeFromStep(code, p);
      DecodedEncodes(code, d.next);
      EncodeDecoded(code, p);
      EncodeAllCons(d.instr, rest);
      SliceSplit(code, p, d.next);
    }
  }

  /** A listing from an address holding an instruction starts with that
      instruction and goes on from the address after it. */
  lemma DecodeFromStep(code: seq<byte>, p: nat)
    requires p < |code| && DecodeAt(code, p).Ok?
    ensures DecodeAt(code, p).next <= |code|
    ensures var d := DecodeAt(code, p);
      DecodeFrom(code, p) == ([d.instr] + DecodeFrom(code, d.next).0, DecodeFrom(code, d.next).1)
  {
  }

  lemma EncodeAllCons(x: Instr, rest: seq<Instr>)
    ensures EncodeAll([x] + rest) == Encode(x) + EncodeAll(rest)
  {
    EncodeAllSplit([x], rest);
    EncodeAllSnoc([], x);
    assert [] + [x] == [x];
  }
}
