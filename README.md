# hgbf core in Dafny

hgbf is a brainfuck implementation in C. It compiles a script into a small
bytecode and then interprets that bytecode. This project models its core and
proves properties about the model:

- **Compiler** (`code.c`). A scanner reads the script byte by byte. It skips
  every byte that is not one of the eight commands `> < + - . , [ ]`, and
  keeps a line and column position.
- **Code buffer** (`code.c`). The compiler turns runs of `>`, `<`, `+`, `-`
  into one repeated instruction. It emits into a singly linked list of
  112-byte chunks. Open-block positions are kept on a growable stack. `]`
  stores the distance between a pair of jumps in both jump operands.
  `hgbf_code_compile` rejects an unmatched `]` or a `[` left open, ends the
  code with HLT, and copies the chunks into one array.
  `hgbf_code_dump` lists that array.
- **Opcode table** (`opcode.h`). One table of 13 opcodes, with their
  mnemonics and operand widths.
- **Interpreter** (`eval.c`). It walks the code with a code pointer over a
  tape. The tape is a doubly linked list of chunks of 112 signed cells,
  allocated on demand and charged against an optional memory limit.

A 64-bit little-endian host is assumed throughout. That fixes the chunk
sizes, the 8-byte `size_t` of the block stack, and the byte order of
operands.

Modules:

- `Bytes`: bytes, signed cells, the little-endian layout and C conversions.
- `Opcodes`: the opcode table.
- `Streams`: the memory byte source and an abstract byte sink.
- `BlockStack`: `stack_t`.
- `CodeBuffer`: the chunked `codebuf_t`.
- `Scanner`: the scanner, on values and as a class.
- `Program`: instructions, their encoding, and the decoder of the dump.
- `Brackets`: the nesting structure of jumps.
- `CompileSpec`: the compile loop on values.
- `CompileProof`: its loop invariant.
- `Compiler`: the imperative compiler, proved against `CompileSpec`.
- `CompileTheorems`: theorems about whole compilations.
- `Dump`: the imperative dump loop.
- `Tape`: the tape on values and as a class.
- `Machine`: the dispatch loop of `eval` on values.
- `Evaluator`: the imperative `eval`, `hgbf_memmax` and `hgbf_eval`,
  proved against `Machine`.
- `RunTheorems`: what running compiled code does with its jumps.

The main theorem is `RunTheorems.JumpTargets`. It covers every matched
pair of brackets in code the compiler accepts:

- on a zero cell, both the JFZ and the JBN go to the instruction after the
  JBN, one byte past its operand;
- on a nonzero cell, both go to the instruction after the JFZ, one byte past
  its operand.

`RunTheorems.CompiledCodeStaysInside` builds on it. Evaluating accepted code
never moves the code pointer outside the code. It stops only at HLT, on an
I/O or memory error, or on a repeated opcode.

## Behaviour as written

The model follows the C code where it departs from what the C code's names
and comments suggest. Each of these is stated as a lemma:

- **Repeated opcodes have no case in eval.**
  - `eval` has no case for NXTn, PRVn, INCn or DECn (0x09–0x0c). The
    compiler nevertheless emits them for every run of two or more equal
    commands, so such code stops with "unknown opcode".
  - `Machine.UnknownOpcodeExactly` states which bytes stop this way.
  - `RunTheorems.DoubleIncrementFails` shows `++` compiling and then
    failing on its first instruction.
- **A left step across a chunk edge lands on the FIRST cell of the chunk it
  reaches, not its last.** `_cells_iter_prev_chunk` uses the same iterator
  constructor as `_cells_iter_next_chunk`. See
  `Tape.LeftEdgeLandsOnFirstCell`.
- **Chunk links are one-way.**
  - A chunk allocated at an edge gets the NULL `target_chunk` as its back
    link (`Tape.NewChunkUnlinked`).
  - Stepping back across the same edge therefore allocates yet another chunk
    (`Tape.CrossBackAllocates`).
- **The block stack's growth test is inverted, and its `realloc` size is in
  bytes.**
  - `stack_push` grows when `size < capacity`, which is every push
    (`BlockStack.GrowthAlwaysTaken`).
  - It passes `capacity * 2` to `realloc` as a byte count, so after the
    first push the buffer holds 2 elements instead of 8
    (`BlockStack.FirstPushShrinks`).
  - In the model the doubling capacity always stays ahead of the elements
    stored, so no write goes out of bounds. In C this holds only while every
    `realloc` succeeds and the capacity fits in a `size_t`.
  - Each `[` counts as a push, because popping never shrinks the buffer. So
    the k-th `[` of a script asks `realloc` for 8·2^k bytes, which grows
    exponentially with the number of `[`.
  - The `size_t` capacity wraps to 0 at the 61st push
    (`BlockStack.CapacityWraps`). After that, `realloc(data, 0)` leaves no
    room for the store, and it goes out of bounds.
- **The `]` error is reported one token late.**
  - `scanner_next` has already advanced to the next command when `compile`
    reports an unmatched `]`, so the error names the position of the command
    after it (`CompileTheorems.UnmatchedReportedLate`).
  - For `]\n\n+`, the error names line 3, column 1 instead of line 1,
    column 1 (`CompileTheorems.LateErrorExample`).
- **Run counts wrap.**
  - A run's count is stored in a 2-byte (moves) or 1-byte (arithmetic)
    operand, so 256 `+` compile to `INCn 0` (`CompileTheorems.RunCountWraps`,
    `CompileTheorems.WrappedRunExample`).
  - `code.c` stores the low bytes of the `size_t` count itself rather than
    of the narrowed copy `n_`. On a little-endian host these are the same
    bytes.

## Model

| member | source | states |
|---|---|---|
| Bytes.LittleEndianRoundTrip | code.c:294-300 | reading back `w` stored bytes gives the value modulo 256^w: a narrow operand keeps only the low bits |
| Bytes.LittleEndianInverse | code.c:406-411 | reading `w` bytes as an integer and storing it back gives the same bytes |
| Bytes.LittleEndianMod | code.c:329-330 | storing a value or its residue modulo 256^w stores the same bytes (the `uint32_t` cast of the jump offset) |
| Bytes.FromLittleEndianBound | code.c:406-411 | an operand read from `w` bytes is below 256^w |
| Bytes.ToUnsigned | eval.c:174-175 | `(unsigned char)` of a cell is the byte congruent to it modulo 256 |
| Bytes.ToSigned | eval.c:188 | `(signed char)` of a byte is the cell congruent to it modulo 256 |
| Bytes.SignedUnsignedRoundTrip | eval.c:174-188 | the two conversions are inverse to each other |
| Bytes.Wrap | eval.c:165-171 | the increment and decrement of a cell wrap modulo 256, leaving in-range values alone |
| Opcodes.OpcodesNumberedInOrder | opcode.h:3-23 | there are 13 entries numbered 0x00–0x0c in list order, so the tables indexed by opcode agree with the enum, and a byte is an opcode exactly when it indexes them |
| Opcodes.OperandWidth | code.c:385-389 | an opcode's operand width is 0, 1, 2 or 4 bytes, one the dumper can read; Opcodes.OperandWidths gives each |
| Opcodes.OpName | code.c:379-383 | a repeated opcode is named after its plain opcode, with "n" appended |
| Opcodes.OperandWidths | opcode.h:4-16 | jumps take 4 operand bytes, repeated moves 2, repeated arithmetic 1, and the others none; every width is one the dumper can read |
| Opcodes.RepeatedVariants | opcode.h:13-16 | each repeated opcode is its plain opcode plus 9 and its name is the plain name plus "n" (what the compiler's static_assert relies on) |
| Streams.ReadResult | stream.c:64-75 | a read from a memory stream gives the next byte as 0–255, and a negative EOF exactly when no byte is left |
| Streams.AfterRead | stream.c:71-74 | a read consumes one byte, and none at the end |
| Streams.ByteSource.constructor | stream.c:37-45 | a fresh memory stream has all its bytes still to read |
| Streams.ByteSource.Read1 | stream.c:64-75 | returns ReadResult of the unread bytes and leaves AfterRead of them unread |
| Streams.ByteSink.constructor | stream.c:87-90 | a fresh output stream has nothing written and keeps its rule for accepting bytes |
| Streams.ByteSink.Write1 | stream.c:92-95 | returns 0 and appends the byte when the sink accepts it, and otherwise returns -1 and writes nothing |
| BlockStack.GrowthAlwaysTaken | code.c:149-155 | the growth test `size < capacity` holds on every push that can happen, so the capacity doubles each time, and the reallocated buffer still has room for the element written |
| BlockStack.CapacityWraps | code.c:149-155 | the `size_t` capacity reaches 2^64 at the 61st push, so its doubling wraps to 0 |
| BlockStack.FirstPushShrinks | code.c:125-131 | `stack_init` allocates 8 elements, but after the first push the byte-sized `realloc` leaves 16 bytes, that is 2 elements |
| BlockStack.Pow2Exceeds | code.c:149-155 | the capacity after `k` pushes, 8·2^k, grows faster than the number of elements |
| BlockStack.Stack.constructor | code.c:125-131 | an empty stack with capacity 8 |
| BlockStack.Stack.IsEmpty | code.c:138-141 | true exactly when no position is stored |
| BlockStack.Stack.Top | code.c:143-147 | the position pushed last |
| BlockStack.Stack.Push | code.c:149-155 | appends the position and doubles the capacity |
| BlockStack.Stack.Pop | code.c:157-161 | removes the position pushed last and keeps the buffer |
| BlockStack.Realloc | code.c:153 | a fresh buffer of the requested size that keeps the elements that fit |
| CodeBuffer.CodeBuf.constructor | code.c:50-56 | a buffer with one empty chunk and no contents |
| CodeBuffer.CodeBuf.AddChunk | code.c:32-48 | links a new empty chunk after the last one, and the contents are unchanged |
| CodeBuffer.CodeBuf.PutLast | code.c:76-77 | appends one byte to the last chunk, which must have room |
| CodeBuffer.CodeBuf.Append1 | code.c:67-78 | the contents gain the byte at their end, a new chunk being linked when the last one is full |
| CodeBuffer.CodeBuf.Append | code.c:80-92 | the contents gain the bytes at their end; they land in one chunk (a new one when the last is too full), so an appended operand never straddles two chunks |
| CodeBuffer.CodeBuf.FillLast | code.c:89-91 | the bytes are copied to the end of the last chunk |
| CodeBuffer.CodeBuf.Ref | code.c:94-107 | the chunk and offset found, through the last chunk or by walking from the first, are those of logical byte `index` |
| CodeBuffer.CodeBuf.Patch | code.c:331 | overwriting at a position whose bytes lie in one chunk replaces exactly those bytes of the contents |
| CodeBuffer.CodeBuf.Poke | code.c:331 | storing one byte at an offset of a chunk replaces that byte of that chunk and nothing else |
| CodeBuffer.CodeBuf.PokeRun | code.c:331 | storing a run of bytes inside one chunk replaces exactly those bytes of that chunk |
| CodeBuffer.CodeBuf.Copy | code.c:109-117 | the array receives the contents, that is every chunk's bytes in list order |
| CodeBuffer.CodeBuf.CopyChunk | code.c:113-115 | one chunk's bytes copied to the array at the destination offset |
| CodeBuffer.CodeBuf.LengthIsContentsLength | code.c:26-30 | the `length` field is the length of the contents |
| CodeBuffer.AppendExtends | code.c:80-92 | an append keeps every earlier chunk and only extends the last or adds one |
| CodeBuffer.ExtendsKeepsFit | code.c:80-92 | bytes stored within one chunk stay within that chunk after later appends, so the patch of a JFZ operand stays valid |
| CodeBuffer.AppendFits | code.c:85-91 | the appended bytes lie inside a single chunk |
| Scanner.TokenCode | code.c:163-173 | a token's enum value is its opcode for the eight commands |
| Scanner.TokenOf | code.c:188-219 | each command byte maps to its token, and none maps to TEnd |
| Scanner.CharOf | code.c:164-171 | the command byte of a token, inverse to TokenOf |
| Scanner.CharOfTokenOf | code.c:188-219 | mapping a command byte to its token and back gives the byte |
| Scanner.AfterCounts | code.c:186-229 | the line advances once per newline; with no newline read the column grows by the bytes read, and a newline read last leaves it at 0 (Scanner.AfterLastNewline covers the general case) |
| Scanner.AfterConcat | code.c:184-232 | reading two stretches of bytes one after the other ends where reading them together does |
| Scanner.AfterLastNewline | code.c:186-229 | after the last newline read, the line has advanced once per newline and the column is the number of bytes read since it |
| Scanner.AdvanceReadsFirstCommand | code.c:182-233 | an advance yields the first command of the unread input, and TEnd exactly when there is none; only non-commands are skipped |
| Scanner.AdvancePosition | code.c:184-232 | after an advance, the position is the one after every byte read, with the end-of-stream read counting one more column |
| Scanner.AdvanceShrinks | code.c:184-225 | an advance consumes at least one byte when there is one, and yields TEnd at the end |
| Scanner.Advance | code.c:182-233 | an advance never reads more bytes than are left; Scanner.AdvanceReadsFirstCommand and Scanner.AdvancePosition state what it yields |
| Scanner.Init | code.c:235-241 | a fresh scanner yields exactly the commands of the source, in order |
| Scanner.Next | code.c:248-258 | an advance from a command brings the scanner closer to the end; Scanner.NextDropsCurrent states that it drops just the current token |
| Scanner.NextDropsCurrent | code.c:248-253 | an advance consumes exactly the current token |
| Scanner.ScannerYieldsCommands | code.c:235-241 | a scanner started on a script yields its commands in order |
| Scanner.IterateYields | code.c:248-258 | after `k` advances the scanner holds the `k`-th token still to come, and TEnd once they are used up |
| Scanner.Scanner.constructor | code.c:235-241 | the state is the scan of the source from line 1, column 0, first token read |
| Scanner.Scanner.Peek | code.c:243-246 | returns the current token and changes nothing |
| Scanner.Scanner.AdvanceLoop | code.c:182-233 | the read loop leaves the state Advance describes |
| Scanner.Scanner.NextToken | code.c:248-253 | returns the current token and advances |
| Scanner.Scanner.Drop | code.c:255-258 | advances, discarding the current token |
| Program.OpcodeOf | opcode.h:3-17 | every instruction's opcode is one of the table's |
| Program.Make | code.c:399-415 | the instruction built from an opcode and an operand has that opcode and, when the opcode takes one, that operand |
| Program.MakeOfParts | code.c:399-415 | an instruction is determined by its opcode and operand |
| Program.WidthIsTableWidth | code.c:385-389 | an instruction's operand width is the table's width for its opcode |
| Program.Encode | code.c:280-331 | an instruction encodes as its opcode followed by its operand bytes |
| Program.EncodeAllSplit | code.c:260-350 | the code of two programs in sequence is their codes in sequence |
| Program.EncodeAllAt | code.c:260-350 | the bytes up to instruction `k + 1` are those before it followed by its encoding |
| Program.PrefixAddr | code.c:260-350 | instructions appended later do not move earlier ones |
| Program.AddrLast | code.c:393-394 | the address past the last instruction is the code length |
| Program.EncodeAll | code.c:260-350 | the code is empty exactly when the program is; Program.DecodeProgram and Program.DecodedEncodes make it and the dump inverse to each other |
| Program.DecodeEncoded | code.c:395-414 | decoding the encoding of a well-formed instruction gives it back, followed by the next address |
| Program.EncodedParts | code.c:395-414 | an encoded instruction's first byte is its opcode, followed by its operand little-endian in the table's width |
| Program.DecodeAt | code.c:395-414 | a decoded instruction is well formed, and its operand ends after the opcode and inside the code |
| Program.DecodeFrom | code.c:391-421 | every instruction the dump lists is well formed; Program.DecodedEncodes and Program.DecodeProgram are its round trips |
| Program.OperandRoundTrip | code.c:406-411 | an operand that fits its width reads back unchanged |
| Program.EncodeDecoded | code.c:395-414 | an instruction decoded from code is encoded by exactly the bytes read |
| Program.DecodeProgramAt | code.c:393-416 | instruction `k` of a well-formed program decodes at its address |
| Program.DecodeProgram | code.c:391-421 | the dump of a well-formed program's code lists exactly its instructions and completes |
| Program.DecodeProgramFrom | code.c:391-421 | from instruction `k`'s address, the dump lists the instructions from `k` on |
| Program.DecodedEncodes | code.c:391-421 | a listing that completes re-encodes to exactly the code it was read from |
| Dump.DumpCode | code.c:391-421 | the lines printed are the decoded instructions, each at the address of its opcode, and the dump ends as DecodeFrom says: complete, at a byte that is no opcode, or at an operand past the end |
| Dump.DecodeOne | code.c:395-414 | one pass of the dump loop reads at `p` exactly what DecodeAt gives: no opcode, an operand past the end, or the instruction and the offset after its operand |
| Dump.ListedStep | code.c:395-415 | one decoded instruction extends the listing with that instruction at its address |
| Dump.ListedBad | code.c:397-398 | a byte past the table stops the dump with "???" |
| Dump.ListedTruncated | code.c:405-414 | an operand running past the end stops the dump |
| Dump.ListedEnd | code.c:393-394 | reaching the end of the code completes the listing |
| Dump.OpcodeIndexes | code.c:397 | the bound test on the name table accepts exactly the opcodes |
| Brackets.DepthSplit | code.c:313-333 | the nesting depth of `[` and `]` adds up over concatenation |
| Brackets.BalancedConcat | code.c:313-333 | two balanced programs in sequence are balanced |
| Brackets.BalancedWrap | code.c:313-333 | a balanced run enclosed in a JFZ and a JBN, after a balanced run, is balanced |
| Brackets.NoMatchInside | code.c:319-333 | a JBN inside a block that never closes below its level is not that block's match |
| Brackets.MatchUniqueOpen | code.c:326-327 | a JBN matches at most one JFZ |
| Brackets.MatchUniqueClose | code.c:326-327 | a JFZ is matched by at most one JBN |
| Brackets.EraseErased | code.c:313-316 | clearing twice is clearing once |
| Brackets.SameShapeBalanced | code.c:313-333 | balance does not depend on jump operands |
| Brackets.SameShapeMatches | code.c:313-333 | pairs and their addresses do not depend on jump operands |
| Brackets.PrefixMatches | code.c:313-333 | code emitted later does not change the pairs already emitted |
| Brackets.OpenHasClose | code.c:362-367 | in a balanced program every JFZ has its JBN |
| Brackets.CloseHasOpen | code.c:319-327 | in a balanced program every JBN has its JFZ |
| Brackets.SuffixesBalanced | code.c:319-333 | a program of depth 0 whose suffixes never open more than they close is balanced |
| CompileProof.RunEncoding | code.c:280-301 | the bytes a run emits encode its instruction: the plain opcode for one command, else the repeated one with the count's low bytes |
| CompileSpec.StepFrom | code.c:265-333 | a pass that goes on keeps every pushed position inside the code and brings the scanner closer to the end |
| CompileSpec.CompileFrom | code.c:260-350 | a loop that completes leaves every pushed position inside the code; CompileProof.CompileFromCorrect states what the code is |
| CompileSpec.CloseCode | code.c:319-333 | a `]` adds five bytes; CompileProof.CloseCodeShape states which |
| CompileProof.CloseCodeShape | code.c:326-331 | a `]` patches the four operand bytes of its JFZ with the offset and appends JBN with the same offset |
| CompileSpec.CodeCompile | code.c:352-377 | code that is accepted ends with HLT |
| CompileProof.RunTokens | code.c:274-278 | the count the peek loop reads is the run's length in the token stream, and it stops at the tokens after the run |
| CompileProof.CloseDistance | code.c:328-331 | the offset a `]` computes from the code length and the pushed position is the distance between the pair's operands, modulo 2^32 |
| CompileProof.LinkedClose | code.c:326-331 | patching the innermost open JFZ with the distance keeps every pair linked |
| CompileProof.DipAtClose | code.c:321-324 | a `]` with no open block means the script closes more than it opens at that point |
| CompileProof.StepKeepsInv | code.c:265-333 | one iteration keeps the loop invariant: what is emitted followed by the translation of what is left is the translation of the whole script, with the pairs closed so far linked |
| CompileProof.CompileFromCorrect | code.c:260-350 | the compile loop ends either at an unmatched `]`, the script then dipping below depth 0, or with code encoding the script's translation with linked pairs |
| CompileProof.UnmatchedClose | code.c:319-324 | an unmatched `]` stops the loop with the invariant's conclusion |
| Compiler.Emit | code.c:80-92 | the buffer gains the bytes at its end, inside one chunk, and every pushed position stays patchable |
| Compiler.EmitRun | code.c:280-301 | the buffer gains the run's code |
| Compiler.EmitOpen | code.c:313-317 | the buffer gains JFZ and four zero bytes, and the position of the operand is pushed |
| Compiler.EmitClose | code.c:319-333 | JBN is appended; with no open block it reports no match, and otherwise the contents become CloseCode of the popped position |
| Compiler.CloseBlock | code.c:326-331 | top, pop, then the distance appended and patched over the JFZ operand |
| Compiler.Link | code.c:329-331 | the offset is appended after the JBN and written over the popped position's operand |
| Compiler.ClosePatch | code.c:331 | the patch replaces exactly the JFZ operand's four bytes |
| Compiler.ReadRun | code.c:274-278 | the peek loop returns one plus the count of the run's remaining commands, and leaves the scanner after them |
| Compiler.Step | code.c:266-333 | one pass of the loop does what StepFrom says |
| Compiler.StepRun | code.c:269-303 | a run moves the scanner past the run and emits its code |
| Compiler.StepOutIn | code.c:305-311 | `.` and `,` emit OUT and IN |
| Compiler.StepOpen | code.c:313-317 | `[` emits JFZ, pushes, and emits four zero bytes |
| Compiler.StepClose | code.c:319-333 | `]` emits the linked pair, or stops at the scanner's position when no block is open |
| Compiler.Compile | code.c:260-350 | returns true exactly when CompileFrom completes, leaving its code and open positions, and otherwise the position CompileFrom reports |
| Compiler.CompileScript | code.c:352-377 | returns the code CodeCompile gives for the script, or no code with the message for an unmatched `]` at its position, or for a `[` left open |
| CompileTheorems.CompileVerdict | code.c:352-377 | "no matching `['" exactly when the script's brackets dip below zero, "`[' is not closed" exactly when they never do but end open, and acceptance exactly when they are balanced |
| CompileTheorems.CompiledProgram | code.c:352-377 | accepted code is the encoding of the script's translation with every pair linked, then HLT, and its dump lists exactly those instructions |
| CompileTheorems.CompileWhole | code.c:359 | the compile loop over a whole script satisfies the loop's conclusion |
| CompileTheorems.UnmatchedReportedLate | code.c:319-324 | an unmatched `]` is reported at the position after the next command (or at the end of the script), not its own |
| CompileTheorems.LateErrorExample | code.c:321-323 | `]\n\n+` is rejected at line 3, column 1 although the `]` is at line 1, column 1 |
| CompileTheorems.TranslateSingleRun | code.c:269-301 | a run of `n` equal commands alone becomes one instruction |
| CompileTheorems.RunCountWraps | code.c:294-300 | a count of 256 (arithmetic) or 65536 (moves) wraps to an operand of 0 |
| CompileTheorems.WrappedRunExample | code.c:294-300 | 256 `+` compile to INCn 0 and HLT |
| CompileTheorems.ExpandTranslate | code.c:260-350 | expanding each instruction back into its commands gives the token stream when no run overflows its operand: the compiler loses nothing else |
| CompileTheorems.ExpandRunInstr | code.c:280-301 | a run instruction whose count fits stands for exactly that many commands |
| CompileTheorems.CommandsOfRepeat | code.c:182-233 | `n` copies of a command byte scan as `n` copies of its token |
| Tape.ZeroCells | eval.c:51 | a chunk's cells start at zero |
| Tape.Init | eval.c:47-55 | the first chunk is zeroed, unlinked and charged without a check, with the cursor on its first cell |
| Tape.InitAccounts | eval.c:47-55 | a fresh tape is charged 128 bytes and holds zero at the cursor |
| Tape.Get | eval.c:121-122 | storing back the value read changes nothing |
| Tape.Set | eval.c:121-122 | storing keeps the tape well formed; Tape.SetGet states that only the current cell changes |
| Tape.Right | eval.c:124-130 | a step right keeps the tape well formed; Tape.RightMoves states where the cursor goes, Tape.RightAccounts and Tape.RightKeepsCells what else it changes |
| Tape.Left | eval.c:132-138 | a step left keeps the tape well formed; Tape.LeftMovesInside and Tape.LeftEdgeLandsOnFirstCell state where the cursor goes, Tape.LeftAccounts and Tape.LeftKeepsCells what else it changes |
| Tape.RightMoves | eval.c:87-130 | inside a chunk a step right moves the cursor one cell and changes nothing else; from the last cell it lands on cell 0 of the linked next chunk, or of the new chunk appended at the end |
| Tape.LeftMovesInside | eval.c:132-138 | inside a chunk a step left moves the cursor back one cell and changes nothing else |
| Tape.RightAccounts | eval.c:87-102 | a step right keeps the charge at 128 bytes per chunk within the limit, and fails exactly at the right edge of a chunk with no successor when the limit leaves no room |
| Tape.LeftAccounts | eval.c:104-119 | the same for a step left at the left edge |
| Tape.SetGet | eval.c:165-188 | storing changes the current cell and nothing else |
| Tape.RightKeepsCells | eval.c:87-102 | a step right changes no cell, and a new chunk is zero |
| Tape.LeftKeepsCells | eval.c:104-119 | a step left changes no cell, and a new chunk is zero |
| Tape.RightThenLeft | eval.c:124-138 | inside a chunk a step right then left returns to the same state |
| Tape.LeftThenRight | eval.c:124-138 | inside a chunk a step left then right returns to the same state |
| Tape.LeftEdgeLandsOnFirstCell | eval.c:104-119 | a step left from a chunk's first cell lands on the FIRST cell of the previous chunk, or of a new one |
| Tape.NewChunkUnlinked | eval.c:87-119 | a chunk allocated by a step has neither link set |
| Tape.CrossBackAllocates | eval.c:87-119 | crossing a right edge into a new chunk and stepping back allocates a second new chunk, on a zero cell, charged 256 bytes in all |
| Tape.Cells.constructor | eval.c:47-55 | the tape object stands for Init |
| Tape.Cells.Read | eval.c:121-122 | the cell under the cursor |
| Tape.Cells.Write | eval.c:121-122 | the new state is Set of the old one |
| Tape.Cells.NewChunk | eval.c:91-97 | with room under the limit, a zeroed unlinked chunk is added and charged; otherwise nothing changes |
| Tape.Cells.Next | eval.c:124-130 | the new state is Right of the old one, or unchanged when memory runs out |
| Tape.Cells.NextChunk | eval.c:87-102 | the step across the right edge as Right describes it |
| Tape.Cells.Prev | eval.c:132-138 | the new state is Left of the old one, or unchanged when memory runs out |
| Tape.Cells.PrevChunk | eval.c:104-119 | the step across the left edge as Left describes it |
| Machine.UnknownOpcodeExactly | eval.c:208-211 | a pass stops with "unknown opcode" at the code pointer exactly when the byte there is above HLT, so on every repeated opcode |
| Machine.Step | eval.c:148-212 | a pass that goes on keeps the tape well formed; Machine.StopChangesNothing and the lemmas below state what each opcode does |
| Machine.StopChangesNothing | eval.c:148-212 | a pass that stops changes nothing, and it halts exactly on an HLT byte |
| Machine.Run | eval.c:140-214 | an evaluation keeps the tape well formed; Machine.HaltsOnlyAtHlt and Machine.RunAccounts state how it ends |
| Machine.HaltsOnlyAtHlt | eval.c:140-214 | an evaluation halts only at an HLT byte, and stops there |
| Machine.IncDecWrap | eval.c:165-171 | INC and DEC change the current cell by one modulo 256 and nothing else, wrapping 127 to -128 and back |
| Machine.OutIn | eval.c:173-189 | OUT writes the cell as an unsigned byte and fails exactly when the sink refuses it; IN fails exactly at the end of input and otherwise stores the byte read as a signed cell |
| Machine.StepAccounts | eval.c:87-119 | a pass keeps the memory accounting, and runs out of memory only with a limit set and no room for one more chunk |
| Machine.RunAccounts | eval.c:140-214 | the same over a whole evaluation |
| Machine.EvalAccounts | eval.c:221-233 | the memory charged is 128 bytes per chunk, at most the limit when one is set and the tape has grown |
| Machine.RunExtendsOutput | eval.c:173-180 | output is only ever appended to |
| Evaluator.Eval | eval.c:140-214 | the outcome, tape, remaining input and output are those Run gives |
| Evaluator.Exec | eval.c:149-212 | one pass of the loop does what Step says |
| Evaluator.ExecMove | eval.c:157-163 | NXT and PRV as Step says |
| Evaluator.ExecCell | eval.c:165-171 | INC and DEC as Step says |
| Evaluator.ExecStream | eval.c:173-189 | OUT and IN as Step says |
| Evaluator.ExecJump | eval.c:191-203 | JFZ and JBN as Step says |
| Evaluator.Evaluator.constructor | eval.c:39 | no memory limit and nothing charged |
| Evaluator.Evaluator.SetMemoryLimit | eval.c:216-219 | sets the limit and nothing else |
| Evaluator.Evaluator.Evaluate | eval.c:221-233 | the return code is 0 on HLT and -1 on every error; the outcome, the memory used, the remaining input and the output are those Run gives from a fresh tape |
| RunTheorems.JumpTargets | eval.c:191-203 | for a matched pair in compiled code, JFZ and JBN both go one byte past the JBN's operand on a zero cell and one byte past the JFZ's operand on a nonzero cell |
| RunTheorems.LinkedJump | eval.c:191-203 | the same for any pair whose operands hold its distance |
| RunTheorems.JumpStep | eval.c:191-203 | a JFZ and a JBN whose operands both hold their distance jump to each other's successors |
| RunTheorems.DistanceExact | code.c:329 | in code shorter than 2^32 the stored distance is not truncated |
| RunTheorems.PairBytes | code.c:313-331 | a pair's JFZ and JBN sit at their addresses followed by their operands |
| RunTheorems.StepAtBoundary | eval.c:148-212 | from an instruction of compiled code, a pass either stops with an outcome compiled code may have or reaches another instruction |
| RunTheorems.RunStaysInCode | eval.c:140-214 | evaluation from any instruction of compiled code ends in such an outcome |
| RunTheorems.CompiledCodeStaysInside | eval.c:221-233 | evaluating accepted code never leaves the code, and stops only at HLT, on an I/O or memory error, on a repeated opcode or when the fuel runs out |
| RunTheorems.DoubleIncrementFails | eval.c:208-211 | `++` compiles to INCn 2 and HLT, and evaluating it stops at once on the unknown opcode 0x0b at offset 0 |
| RunTheorems.InstrAt | code.c:260-350 | instruction `k` of compiled code sits at its address, followed by its operand |
| RunTheorems.Partner | code.c:319-333 | every jump of a compiled program belongs to a linked pair |

## Left out

- I/O: file streams, stdin and stdout, and `hgbf_err_record` messages are not modelled. The memory stream of `stream.c` is modelled. The sink is abstract: a function decides whether each write succeeds. A rejected script is reported as a `Diagnostic` value that holds the position.
- The dump's `printf` formatting: `Dump.DumpCode` returns (address, instruction) lines.
- `setjmp`/`longjmp` on out of memory: `hgbf_eval`'s jump is modelled as the outcome OutOfMemory (exit code -1), carrying the byte counts the message prints.
- `malloc` and `realloc` failure: allocation always succeeds. On a real host the block stack's `realloc` fails after a few dozen `[`, because the k-th `[` asks for 8·2^k bytes.
- The memory-release functions `codebuf_destroy`, `stack_destroy`, `cells_destroy` and `hgbf_code_free` are not modelled, because they only free memory.
- The `static_assert` lines are compile-time checks, not behaviour. `Opcodes.RepeatedVariants` states the fact they check.
- `size_t` wrap-around of lengths, counters and the memory total: these are unbounded integers, because their wrap-around needs more than 2^64 bytes. The block stack's capacity is the exception, covered by the next two lines.
- BlockStack.GrowthAlwaysTaken: the capacity 8·2^pushes is an unbounded integer. In C the `size_t` capacity wraps to 0 at the 61st push, and from then on the store is out of bounds. `BlockStack.CapacityWraps` states the wrap.
- BlockStack.Stack.Push: its promise that the store stays in bounds assumes the unbounded capacity and a `realloc` that always succeeds. Neither holds in C: `realloc` fails after a few dozen pushes, and the capacity wraps at the 61st.
- Evaluator.Eval: bounded by a `fuel` count of passes, with the outcome OutOfFuel when it runs out, because the C loop need not terminate.
- RunTheorems.CompiledCodeStaysInside: requires compiled code of at most 2^32 bytes. Longer code truncates jump operands to 32 bits and its jumps are not described.
- Machine.Step: a code pointer moved outside the code, which is undefined in C, is the outcome OutsideCode. Compiled code never reaches it.
- Program.DecodeAt: an operand that runs past the end of the code is read out of bounds in C. The model stops there with Truncated and the dump with StoppedTruncated.
- CodeBuffer.CodeBuf.Append: requires at most 112 bytes, the capacity of a chunk. A longer append would overrun a fresh chunk in C. The compiler never appends more than 4 bytes at once.
- Evaluator.Evaluator.Evaluate: requires the code to end with HLT, as the `assert` in `hgbf_eval` demands.
- `codebuf_ref`'s pointer is modelled as a (chunk, offset) pair, and the 32-bit store through it as `Patch`. The model proves that a patched operand never straddles two chunks.
- The unreachable `default:` branch of `compile` (`abort` or `__builtin_unreachable`): it is left out, because the scanner yields only the nine tokens.
