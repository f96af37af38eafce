/**
 * The instruction set of opcode.h: one table of (mnemonic, code, operand
 * width) entries, from which the enum values, the dumper's name table and
 * its operand-width table are all generated.
 */
module Opcodes {
  import opened Bytes

  datatype Entry = Entry(name: string, code: byte, width: nat)

  const NXT: byte := 0x00
  const PRV: byte := 0x01
  const INC: byte := 0x02
  const DEC: byte := 0x03
  const OUT: byte := 0x04
  const IN: byte := 0x05
  const JFZ: byte := 0x06
  const JBN: byte := 0x07
  const HLT: byte := 0x08
  const NXTN: byte := 0x09
  const PRVN: byte := 0x0a
  const INCN: byte := 0x0b
  const DECN: byte := 0x0c

  /** HGBF_OPCODE_LIST, in list order */
  const OPCODE_LIST: seq<Entry> := [
    Entry("NXT", NXT, 0),
    Entry("PRV", PRV, 0),
    Entry("INC", INC, 0),
    Entry("DEC", DEC, 0),
    Entry("OUT", OUT, 0),
    Entry("IN", IN, 0),
    Entry("JFZ", JFZ, 4),
    Entry("JBN", JBN, 4),
    Entry("HLT", HLT, 0),
    Entry("NXTn", NXTN, 2),
    Entry("PRVn", PRVN, 2),
    Entry("INCn", INCN, 1),
    Entry("DECn", DECN, 1)
  ]

  /** A byte names an opcode iff it is at most the last code, 0x0c; that is,
      iff it indexes the generated tables (OpcodesNumberedInOrder). */
  predicate IsOpcode(b: byte)
  {
    b <= DECN
  }

  /** `operand_width[op]`: always a width the dumper can read. */
  function OperandWidth(op: byte): (w: nat)
    requires IsOpcode(op)
    ensures w in {0, 1, 2, 4}
  {
    OPCODE_LIST[op].width
  }

  /** `op_name[op]`: a repeated opcode is named after its plain one. */
  function OpName(op: byte): (n: string)
    requires IsOpcode(op)
    ensures op >= NXTN ==> n == OpName(op - 9) + "n"
  {
    OPCODE_LIST[op].name
  }

  /** There are exactly 13 opcodes, numbered 0x00-0x0c in list order, so the
      tables indexed by opcode agree with the enum. */
  lemma OpcodesNumberedInOrder()
    ensures |OPCODE_LIST| == 13
    ensures forall i :: 0 <= i < |OPCODE_LIST| ==> OPCODE_LIST[i].code == i
    ensures forall b: byte :: IsOpcode(b) <==> b < |OPCODE_LIST|
  {
  }

  /** Operand widths: 4 for the jumps, 2 for the repeated moves, 1 for the
      repeated arithmetic, none otherwise; so every width is one of the three
      the dumper can read. */
  lemma OperandWidths()
    ensures OperandWidth(JFZ) == 4 && OperandWidth(JBN) == 4
    ensures OperandWidth(NXTN) == 2 && OperandWidth(PRVN) == 2
    ensures OperandWidth(INCN) == 1 && OperandWidth(DECN) == 1
    ensures forall op: byte :: IsOpcode(op) && op !in {JFZ, JBN, NXTN, PRVN, INCN, DECN} ==> OperandWidth(op) == 0
    ensures forall op: byte :: IsOpcode(op) ==> OperandWidth(op) in {0, 1, 2, 4}
  {
  }

  /** Each repeated variant is its plain opcode plus 9. */
  lemma RepeatedVariants()
    ensures NXTN == NXT + 9 && PRVN == PRV + 9 && INCN == INC + 9 && DECN == DEC + 9
    ensures OpName(NXTN) == OpName(NXT) + "n" && OpName(PRVN) == OpName(PRV) + "n"
    ensures OpName(INCN) == OpName(INC) + "n" && OpName(DECN) == OpName(DEC) + "n"
  {
  }
}
