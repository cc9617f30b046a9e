# sim8086 core in Dafny

A model of the machine-code core of an 8086 disassembler and simulator:

- the instruction data model: operations, registers, addressing bases, operands, the decoded instruction and the CPU state;
- the flat 64 KiB memory: little-endian words and wrap-around addressing;
- the decoder, which turns bytes at a cursor into one instruction and a new cursor;
- the NASM-style text renderer;
- the execution engine for MOV, ADD, SUB, CMP and JNE;
- the clock estimator for MOV and ADD.

Everything is a pure function on immutable values. Bytes and words are integer subset types (`Byte` is 0..255, `Word` is 0..65535), and every place where the C code wraps a `u16` is written out as `% 65536`. Memory is a sequence of exactly 65536 bytes.

The C code disagrees with the 8086 encoding and with the rest of the program in three places: byte-register writes, byte-width arithmetic, and the MOV memory/accumulator forms with w = 0. At those places the decoder and the engine take a `Fidelity` parameter:

- `AsWritten` follows the C code;
- `Intended` follows the evident intent.

Everything else is the same under both. The three places are listed under "## Findings".

Modules:

| module | file | what it holds |
|---|---|---|
| `Isa` | isa.dfy | data model, enum ordinals, signed readings of bytes and words |
| `Bits` | bits.dfy | bitwise AND on naturals, used for the opcode masks and the byte-register write |
| `Memory` | memory.dfy | loading, byte/word reads and writes, cursor pulls |
| `Decoder` | decoder.dfy | field decoders, the opcode dispatcher, per-encoding properties, lengths |
| `Renderer` | renderer.dfy | decimal numerals, names, operand and instruction text |
| `Simulator` | simulator.dfy | register file, effective addresses, operand access, execution |
| `Clocks` | clocks.dfy | effective-address and instruction clock estimates |
| `Encoder` | encoder.dfy | the decoder's partner: one machine encoding per decodable instruction, and the round trips between the two |
| `Disassembly` | disassembly.dfy | the renderer's partner: reading instruction text back, the round trip, and worked examples from bytes to text |

The program itself has no encoder. `Encoder` is the reference the decoder is checked against, written from Table 4-12 of the Intel 8086 Family User's Manual. It gives every instruction the decoder can produce one encoding, the shortest:

- jumps as opcode and offset;
- register and memory operands in the mod-reg-r/m forms;
- an immediate to a register in the short 0xB0-0xBF form;
- other immediates in the 0xC6/0xC7 and 0x80/0x81 forms.

Two properties connect the encoder and the decoder:

- decoding the encoding, wherever it is placed in memory (wrapping at the top included), gives back the instruction and a cursor just past it;
- everything the decoder produces is encodable.

The renderer's partner is a reader for the text it prints. `Renderer` reads back numerals, names and operands, and `Disassembly` reads back whole instructions. The reader shows that the text loses nothing:

- every instruction the decoder produces prints as text that reads back as that instruction;
- two such instructions print the same text exactly when they are equal.

The reader also pins the format: the ` - ` of a negative displacement, the low byte of an 8-bit immediate, the size keyword before an immediate stored to memory, and the `$+n`/`$-n` jump targets.

The model follows the code's behaviour where it differs from the code's own declarations:

- The decoder's error enumeration names end-of-stream and missing-bytes errors, but `decode_instruction` never returns them. Reads simply wrap around memory, so decoding here is total. Its outcomes are:
  - a decoded instruction;
  - an unknown opcode;
  - an arithmetic-family encoding whose operation the code leaves unassigned. For variants other than 000, 101 and 111, the C code (src/sim8086_decoder.c:225-232, :257-263 and :293-299) assigns no operation but still returns `DECODE_OK`, and `op` keeps whatever the previous instruction left in the record. The model reports this as `UnassignedOperation`, carrying the variant and the decoded operands, instead of guessing a stale operation.
- Fields of the instruction record that the C decoder does not write for a given encoding hold fixed placeholders: `UnusedDest`, `UnusedSrc` and `UnusedOffset`. For example, the operands of a jump are placeholders. The C code leaves the previous contents of the record in those fields, and nothing reads them for that operation.

## Model

| member | source | states |
|---|---|---|
| Isa.AsSigned8 | src/sim8086.h:103 | the i8 reading of a byte lies in -128..127 and agrees with the byte modulo 256 |
| Isa.AsSigned16 | src/sim8086.h:66-72 | the i16 reading of a word lies in -32768..32767 and agrees with the word modulo 65536 |
| Isa.OperationFromOrdinal | src/sim8086.h:17-43 | every ordinal below 24 names an operation with that ordinal |
| Isa.OperationOrdinalBijective | src/sim8086.h:17-43 | the operation ordinal is a bijection between the 24 operations and 0..23 |
| Isa.OperationKinds | src/sim8086.h:17-43 | every operation is exactly one of: an operand operation (ordinals 0..3), one of the 16 conditional jumps, or loop-family |
| Isa.RegisterFromOrdinal | src/sim8086.h:45-50 | every ordinal below 16 names a register with that ordinal |
| Isa.RegisterOrdinalBijective | src/sim8086.h:45-50 | register ordinals are a bijection onto 0..15, and the 16-bit registers are exactly ordinals 8..15 |
| Isa.MemBaseFromOrdinal | src/sim8086.h:52-64 | every ordinal up to 8 names an addressing base with that ordinal |
| Isa.MemBaseOrdinalBijective | src/sim8086.h:52-64 | base ordinals are a bijection onto 0..8 in R/M-field order, and the direct address is exactly ordinal 8 |
| Memory.LoadFromBuffer | src/sim8086/memory.c:3-8 | reports -1 exactly when start + size exceeds 65536; otherwise reports 0, the buffer occupies [start, start + size) and no other byte changes |
| Memory.WriteU8 | src/sim8086/memory.c:41-43 | the byte written reads back and no other address changes |
| Memory.WriteU16 | src/sim8086/memory.c:45-48 | the low byte goes to a, the high byte to (a + 1) mod 65536, and no other address changes |
| Memory.PullU8 | src/sim8086/memory.c:56-60 | returns the byte at the cursor and advances the cursor by 1 modulo 2^16 |
| Memory.PullU16 | src/sim8086/memory.c:50-54 | returns the little-endian word at the cursor, wrapping, and advances the cursor by 2 modulo 2^16 |
| Memory.AdvanceAdds | src/sim8086/memory.c:50-60 | advancing a cursor twice is advancing it by the sum, wrap-around included |
| Memory.ReadU16WrapsAtTop | src/sim8086/memory.c:37-39 | the word at 0xFFFF takes its high byte from address 0 |
| Memory.WriteThenReadU8 | src/sim8086/memory.c:33-43 | after writing v at a, reading a gives v and every other address reads as before |
| Memory.WriteThenReadU16 | src/sim8086/memory.c:37-48 | after writing a word at a, reading the word at a gives it back, also at a = 0xFFFF |
| Memory.WriteU16Frame | src/sim8086/memory.c:45-48 | a word write leaves every address other than a and (a + 1) mod 65536 unchanged |
| Decoder.ModField | src/sim8086_decoder.c:140 | the mod field of an addressing byte is below 4 |
| Decoder.RegField | src/sim8086_decoder.c:141 | the REG field is below 8 |
| Decoder.RmField | src/sim8086_decoder.c:142 | the R/M field is below 8 |
| Decoder.CondJumpLookup | src/sim8086_decoder.c:12-29 | every 4-bit code selects a conditional jump |
| Decoder.LoopJumpLookup | src/sim8086_decoder.c:30-35 | every 2-bit code selects LOOP, LOOPZ, LOOPNZ or JCXZ |
| Decoder.CondJumpCode | src/sim8086_decoder.c:12-29 | a conditional jump's opcode code is below 16 |
| Decoder.LoopJumpCode | src/sim8086_decoder.c:30-35 | a loop-family opcode code is below 4 |
| Decoder.CondJumpTableBijective | src/sim8086_decoder.c:12-29 | the conditional-jump table is a bijection between 0..15 and the 16 conditional jumps |
| Decoder.LoopJumpTableBijective | src/sim8086_decoder.c:30-35 | the loop table is a bijection between 0..3 and the 4 loop-family operations |
| Decoder.ExtendSignBit | src/sim8086_decoder.c:37-43 | the result read as i16 equals the byte read as i8; its low byte is the byte and its high byte is 0xFF exactly when bit 7 is set |
| Decoder.DecodeReg | src/sim8086_decoder.c:62-64 | the register's ordinal is reg + 8 * w |
| Decoder.DecodeMemBase | src/sim8086_decoder.c:68-70 | the base's ordinal is the R/M field |
| Decoder.DecodeRegInjective | src/sim8086_decoder.c:62-64 | DecodeReg is injective on 0..7 × bool and gives a 16-bit register exactly when w is set |
| Decoder.DecodeRegCovers | src/sim8086_decoder.c:62-64 | every register is decoded from its ordinal mod 8 and its width |
| Decoder.DecodeMemBaseCovers | src/sim8086_decoder.c:68-70 | every register-relative base is decoded from its own R/M value |
| Decoder.DecodeRegOrMem | src/sim8086_decoder.c:73-107 | for each mod: mod = 11 gives the register DecodeReg(rm, w) and consumes nothing; 10 reads a 2-byte displacement; 01 reads 1 byte sign-extended; 00 with rm = 110 reads a 2-byte direct address; other 00 cases have displacement 0 and consume nothing |
| Decoder.DecodeRegOrMemToSrc | src/sim8086_decoder.c:109-126 | the same operand as a source: a register source exactly for mod = 11, otherwise a memory source, consuming the same bytes |
| Decoder.ArithOp | src/sim8086_decoder.c:225-232 | variant 000 assigns ADD, 101 SUB and 111 CMP; no other variant assigns an operation |
| Decoder.DecodeImmediate | src/sim8086_decoder.c:164-170 | a wide immediate is the 16-bit word at the cursor and consumes 2 bytes; otherwise the byte, tagged 8-bit, consuming 1 |
| Decoder.OpcodeMasks | src/sim8086_decoder.c:135-317 | each mask test of the dispatcher selects exactly its Table 4-12 range of first bytes |
| Decoder.DispatchByRange | src/sim8086_decoder.c:131-325 | the mask chain, tested in source order, classifies every first byte into its Table 4-12 row, and matches none exactly for unrecognised bytes |
| Decoder.DecodeByForm | src/sim8086_decoder.c:131-132 | decoding reads the first byte, continues one byte later, and proceeds by the row of that byte |
| Decoder.EncodedLength | src/sim8086_decoder.c:131-325 | every encoding is 1 to 6 bytes long |
| Decoder.DecodeUnknown | src/sim8086_decoder.c:323-324 | the unknown-opcode outcome happens exactly for unrecognised first bytes and consumes exactly one byte |
| Decoder.DecodeUnassigned | src/sim8086_decoder.c:224-299 | no operation is assigned exactly for ADD/SUB/CMP-family encodings whose variant is not 000, 101 or 111 |
| Decoder.DecodeMovRegMem | src/sim8086_decoder.c:135-153 | MOV r/m with register: d = 1 makes the REG register the destination and r/m the source, d = 0 the reverse |
| Decoder.DecodeMovImmediateToRegister | src/sim8086_decoder.c:156-170 | 0xB0..0xBF: the destination is DecodeReg(low three bits, bit 3), with an 8-bit immediate in 2 bytes or a 16-bit one in 3 |
| Decoder.DecodeMovImmediateToRegMem | src/sim8086_decoder.c:174-190 | 0xC6/0xC7: the destination is the r/m operand and the immediate of width w follows its displacement |
| Decoder.DecodeAccumulatorAsWritten | src/sim8086_decoder.c:193-221 | as written, w = 0 reads a 1-byte address and memory-to-accumulator always targets AX |
| Decoder.DecodeAccumulatorIntended | src/sim8086_decoder.c:193-221 | as the encoding defines it: a 16-bit address, and AL or AX by w in both directions |
| Decoder.DecodeArithRegMem | src/sim8086_decoder.c:224-250 | ADD/SUB/CMP r/m with register: the operation from bits 5..3 of byte 1, the direction bit as for MOV |
| Decoder.DecodeArithImmediateToRegMem | src/sim8086_decoder.c:253-283 | 0x80..0x83: the operation from the REG field of byte 2; w = 1, s = 1 reads one byte sign-extended into a 16-bit immediate; w = 1, s = 0 reads two bytes; w = 0 reads one byte tagged 8-bit |
| Decoder.DecodeArithImmediateToAccumulator | src/sim8086_decoder.c:286-307 | the accumulator forms: AL with an 8-bit immediate or AX with a 16-bit one |
| Decoder.DecodeCondJump | src/sim8086_decoder.c:310-314 | 0x70..0x7F select the conditional jump from the table by the low four bits; the offset is the next byte, and the instruction is 2 bytes |
| Decoder.DecodeLoopJump | src/sim8086_decoder.c:317-321 | 0xE0..0xE3 select from the loop table by the low two bits; the offset is the next byte, and the instruction is 2 bytes |
| Decoder.AddressedFormLength | src/sim8086_decoder.c:135-283 | the forms with an addressing byte consume opcode, addressing byte, displacement and immediate, and nothing more |
| Decoder.UnaddressedFormLength | src/sim8086_decoder.c:156-321 | the forms without an addressing byte consume opcode and immediate, address or offset, and nothing more |
| Decoder.DecodeLength | src/sim8086_decoder.c:131-328 | the cursor after decoding is the start plus the encoding's length from Table 4-12, modulo 2^16 |
| Renderer.DigitChar | src/sim8086.c:53 | a digit's character is a decimal digit with that value |
| Renderer.NatText | src/sim8086.c:53 | a numeral is nonempty, all digits, and has a leading zero only for 0 |
| Renderer.IntText | src/sim8086.c:119 | a signed numeral starts with '-' exactly for negative numbers |
| Renderer.NatTextRoundTrip | src/sim8086.c:53 | reading a numeral back gives the number |
| Renderer.NatTextInjective | src/sim8086.c:53 | different numbers have different numerals |
| Renderer.IntTextRoundTrip | src/sim8086.c:119 | reading a signed numeral back gives the integer |
| Renderer.IndexOf | src/sim8086.c:2-10 | finds the first position of a name in a table, or reports that it is absent |
| Renderer.IndexOfDistinct | src/sim8086.c:2-10 | in a table without repeats, every entry is found at its own position |
| Renderer.RegisterFromName | src/sim8086.c:2-10 | a name that denotes a register is that register's name |
| Renderer.OperationFromMnemonic | src/sim8086.c:61-70 | a mnemonic that denotes an operation is that operation's mnemonic |
| Renderer.RegisterNameRoundTrip | src/sim8086.c:2-10 | every register's name denotes that register and no other |
| Renderer.MnemonicRoundTrip | src/sim8086.c:61-70 | every operation's mnemonic denotes that operation and no other |
| Renderer.JumpDisplayOffset | src/sim8086.c:115 | the printed offset is in -128..127 and agrees with offset + 2 modulo 256 |
| Renderer.JumpDisplayOffsetWraps | src/sim8086.c:113-120 | the printed offset is the signed offset plus 2, except that +126 and +127 wrap to -128 and -127 |
| Renderer.MnemonicShape | src/sim8086.c:61-70 | every mnemonic is nonempty and holds no space, so the first space of an instruction's text ends it |
| Renderer.NumeralValue | src/sim8086.c:53 | a string reads as a number exactly when it is a canonical decimal numeral (digits, no leading zero), and that number's numeral is the string |
| Renderer.CanonicalNatText | src/sim8086.c:53 | every canonical numeral is the numeral of its own value |
| Renderer.NumeralRoundTrip | src/sim8086.c:53 | the numeral of every natural number reads back as that number |
| Renderer.MemText | src/sim8086.c:12-34 | a memory operand prints as its inner text in square brackets |
| Renderer.MemInnerTextParts | src/sim8086.c:25-33 | a based operand prints as its base name alone for displacement 0, the name, ` + ` and d for d > 0, and the name, ` - ` and -d for d < 0; none of these reads as a bare numeral |
| Renderer.MemTextSign | src/sim8086.c:27-33 | after the base name comes nothing exactly when the displacement is 0, ` - ` exactly when it is negative, ` + ` when positive, then the numeral of its magnitude |
| Renderer.BaseNameShape | src/sim8086.c:13-22 | each base name starts and ends with a letter and holds only letters, spaces and '+', and no comma |
| Renderer.BaseNameReadsBack | src/sim8086.c:13-22 | each base name reads back as its base |
| Renderer.BaseNameFacts | src/sim8086.c:13-22 | a base name has no displacement part and reads back as its base |
| Renderer.SplitSigned | src/sim8086.c:27-30 | text of the form `b + n` or `b - n` with n at least 1 splits into b and +n or -n at its last space |
| Renderer.MemTextDisplacement | src/sim8086.c:27-33 | the displacement part of a based operand's text reads back as the signed i16 displacement, and there is none exactly when the displacement is 0 |
| Renderer.MemTextRoundTrip | src/sim8086.c:12-34 | every memory operand's text reads back as the operand: a direct address as its unsigned word, a based operand with its i16 displacement |
| Renderer.MemTextShape | src/sim8086.c:12-34 | a memory operand's text holds no comma |
| Renderer.RegisterNameShape | src/sim8086.c:2-10 | every register name is two lowercase letters |
| Renderer.NotARegisterName | src/sim8086.c:2-10 | text not starting with a letter, such as a memory operand or a numeral, is no register name |
| Renderer.RegOrMemTextRoundTrip | src/sim8086.c:36-42 | a destination's text reads back as the register or memory operand |
| Renderer.RegOrMemTextShape | src/sim8086.c:36-42 | a destination's text holds no comma, so the first comma of an instruction ends it |
| Renderer.ImmediateText | src/sim8086.c:52-57 | a 16-bit immediate prints as its unsigned value, an 8-bit one as its low byte in 0..255 |
| Renderer.SrcTextRoundTrip | src/sim8086.c:44-59 | a source's text reads back as the source, given the width that tells an 8-bit immediate from a 16-bit one |
| Renderer.SrcTextShape | src/sim8086.c:44-59 | a source's text is nonempty and never starts with `word ` or `byte `, so a size keyword in front of it is unambiguous |
| Renderer.SizeKeyword | src/sim8086.c:84-91 | `word ` exactly for a memory destination with a 16-bit immediate, `byte ` exactly for one with an 8-bit immediate, and nothing otherwise |
| Simulator.WithWordRegister | src/sim8086/simulator.c:52-75 | a word register write sets that register, and leaves the other word registers, the flags and ip unchanged |
| Simulator.ReadReg | src/sim8086/simulator.c:2-23 | a word register reads its storage; a low byte reads the parent mod 256; a high byte reads the parent / 256 |
| Simulator.WriteReg | src/sim8086/simulator.c:25-79 | a word register reads back the value written; registers with another parent, the flags and ip are unchanged |
| Simulator.ByteWriteAsWrittenClears | src/sim8086/simulator.c:28-51 | as written, a byte-half update of a low byte with a value below 256, or of a high byte with any value, yields 0 |
| Simulator.WriteRegAsWrittenClears | src/sim8086/simulator.c:28-51 | as written, such a write to AL/CL/DL/BL or AH/CH/DH/BH zeroes the whole parent register |
| Simulator.WriteRegIntendedMerges | src/web/register-field.js:55-60 | the intended byte write: the half written reads back the value's low byte and the other half keeps its contents |
| Simulator.ByteWriteDiverges | src/sim8086/simulator.c:28-30 | AX = 0x1234 with AL := 0x56 gives AX = 0 as written and 0x1256 as intended |
| Simulator.WordRegistersAreWide | src/sim8086/simulator.c:149-171 | the 16-bit registers are exactly AX, CX, DX, BX, SP, BP, SI, DI, and every register's storage is one of them |
| Simulator.EffectiveAddress | src/sim8086/simulator.c:95-101 | a direct address is used as is; otherwise the base value plus the displacement, modulo 2^16 |
| Simulator.BaseValueFollowsTable | src/sim8086/simulator.c:81-93 | each base is the sum of the registers Table 4-10 lists for it, modulo 2^16 |
| Simulator.EffectiveAddressFollowsTable | src/sim8086/simulator.c:81-101 | a register-relative address is the sum of its table registers and the displacement, modulo 2^16 |
| Simulator.WriteRegOrMem | src/sim8086/simulator.c:141-147 | only the destination changes: a register write leaves memory and every register held by another word register alone; a memory write leaves the registers and every byte other than the one (byte) or two (word) at the effective address alone; neither touches the flags or ip |
| Simulator.WriteRegOrMemReadsBack | src/sim8086/simulator.c:103-147 | a value written at an operand's width reads back in full from a word, and as its low byte from memory and (as intended) from byte registers |
| Simulator.OperandsWide | src/sim8086/simulator.c:173-185 | the width is the destination register's, else the source register's, else the immediate's tag; it is undetermined exactly for memory to memory |
| Simulator.ArithResult | src/sim8086/simulator.c:207-219 | as written, the result is the sum or difference modulo 2^16 at every width; as intended, byte results are modulo 2^8 |
| Simulator.ExecuteUnimplemented | src/sim8086/simulator.c:243-244 | execution is reported unimplemented exactly for operations other than MOV, ADD, SUB, CMP and JNE |
| Simulator.ExecuteMov | src/sim8086/simulator.c:197-202 | MOV stores the source, read at the derived width, into the destination and reads back; flags, ip and the other store are unchanged, and so are every register held by another word register and every memory byte other than the one or two written |
| Simulator.ExecuteAddSubFlags | src/sim8086/simulator.c:187-226 | ADD and SUB set zero when the result is 0 and sign from bit 15 or bit 7 by width; ip is unchanged |
| Simulator.ExecuteAddSubWrites | src/sim8086/simulator.c:203-226 | ADD and SUB write the result to the destination after setting the flags; a memory destination leaves every register other than the flags and every byte other than the one or two written unchanged, a register destination leaves memory and every register held by another word register unchanged, and ip is unchanged |
| Simulator.ExecuteAddSubStores | src/sim8086/simulator.c:203-226 | after ADD or SUB the destination reads back the result at the operand width |
| Simulator.ExecuteCmpIsSubWithoutStore | src/sim8086/simulator.c:227-236 | CMP sets the flags SUB sets and changes no register, no memory and not ip |
| Simulator.ExecuteJne | src/sim8086/simulator.c:237-242 | JNE adds the signed offset to ip modulo 2^16 exactly when zero is clear, and changes nothing else |
| Simulator.ByteAddCarryZeroFlag | src/sim8086/simulator.c:203-210 | AL = 0xFF plus 1 leaves zero clear as written and sets it as intended |
| Clocks.EaClocks | src/sim8086/simulator.c:248-268 | every effective-address time is between 5 and 12 clocks |
| Clocks.EaClocksDisplacement | src/sim8086/simulator.c:248-268 | a direct address costs 6 whatever its value; for the other bases a nonzero displacement adds exactly 4 |
| Clocks.EaClocksByRegisterCount | src/sim8086/simulator.c:254-264 | one register costs 5; two registers cost 7 (BP+DI, BX+SI) or 8 (BX+DI, BP+SI) |
| Clocks.MovFollowsTable | src/sim8086/simulator.c:272-296 | MOV follows the timing table: accumulator↔memory 10, reg↔reg 2, reg←mem 8+EA, mem←reg 9+EA, reg←imm 4, mem←imm 10+EA; memory to memory is the one unhandled variant |
| Clocks.AddFollowsTable | src/sim8086/simulator.c:297-319 | ADD follows the timing table: reg,reg 3, reg←mem 9+EA, mem←reg 16+EA, reg←imm 4, mem←imm 17+EA; memory to memory is the one unhandled variant |
| Clocks.OnlyMovAndAddEstimated | src/sim8086/simulator.c:320-321 | estimation is reported unimplemented exactly for operations other than MOV and ADD |
| Encoder.ValueFields | src/sim8086_decoder.c:140-142 | an addressing byte packed from mod, REG and R/M gives each field back under the decoder's field extraction |
| Encoder.RegCode | src/sim8086_decoder.c:62-64 | every register has a 3-bit code from which, with its width, the decoder's register table gives it back |
| Encoder.RmCode | src/sim8086_decoder.c:68-70 | every register-relative base has a 3-bit R/M code from which the decoder's base table gives it back |
| Encoder.ShortDisplacementExtends | src/sim8086_decoder.c:37-43 | a displacement in -128..127 survives being cut to its low byte and sign-extended |
| Encoder.ReadPlacedWord | src/sim8086/memory.c:37-39 | a word placed as its two little-endian bytes, anywhere, reads back as that word |
| Encoder.OperandRoundTrip | src/sim8086_decoder.c:73-107 | an operand's addressing byte and displacement, placed anywhere, decode to the operand with the cursor just past them; REG carries the value put in it |
| Encoder.ImmediateRoundTrip | src/sim8086_decoder.c:164-170 | an immediate's one or two bytes decode to the immediate with its width tag, the cursor just past them |
| Encoder.JumpRoundTrip | src/sim8086_decoder.c:310-321 | a jump's opcode and offset byte decode to the jump with that offset, in 2 bytes |
| Encoder.RegToRegMemRoundTrip | src/sim8086_decoder.c:135-250 | the d = 0 register/memory forms of MOV, ADD, SUB and CMP decode to the instruction with the REG register as source |
| Encoder.MemToRegRoundTrip | src/sim8086_decoder.c:135-250 | the d = 1 forms decode to the instruction with the REG register as destination and the memory operand as source |
| Encoder.MovImmediateToRegisterRoundTrip | src/sim8086_decoder.c:156-170 | the short MOV-immediate form decodes to the register and the immediate of its width |
| Encoder.ImmediateToRegMemRoundTrip | src/sim8086_decoder.c:174-283 | 0xC6/0xC7 and 0x80/0x81 decode to the operation, the r/m destination and the immediate that follows its displacement |
| Encoder.EncodeRoundTrip | src/sim8086_decoder.c:131-328 | decoding an encodable instruction's encoding, placed at any address, gives the instruction back with the cursor advanced by the encoding's length modulo 2^16 |
| Encoder.FormEncodable | src/sim8086_decoder.c:135-321 | every form the dispatcher recognises yields, when it assigns an operation, operands of one width and an immediate of the destination's width |
| Encoder.DecodedIsEncodable | src/sim8086_decoder.c:131-328 | every instruction the decoder produces has an encoding |
| Encoder.ReEncodeRoundTrip | src/sim8086_decoder.c:131-328 | re-encoding a decoded instruction and decoding that anywhere gives the same instruction |
| Disassembly.SplitAt | src/sim8086.c:86-90 | a split at c gives a prefix without c, and the prefix, c and the rest make up the text |
| Disassembly.SplitAtFirst | src/sim8086.c:86-90 | text whose prefix holds no c splits at the c after that prefix |
| Disassembly.JumpTargetText | src/sim8086.c:116-120 | a jump target prints as `$`, then `+` exactly for n ≥ 0 and `-` exactly for n < 0 |
| Disassembly.JumpDisplayOffsetInverse | src/sim8086.c:115 | subtracting 2 from the printed target modulo 256 gives back the offset byte |
| Disassembly.JumpText | src/sim8086.c:113-120 | a jump prints as its mnemonic, a space and `$+n` for n ≥ 0 or `$-` and the numeral of -n for n < 0, n being the offset byte plus 2 read as an i8 |
| Disassembly.OperandText | src/sim8086.c:84-91 | MOV, ADD, SUB and CMP print as the mnemonic, a space, the destination, `, `, the size keyword and the source |
| Disassembly.ReadsOperandMnemonic | src/sim8086.c:80-91 | for MOV, ADD, SUB and CMP the mnemonic before the first space selects the operation, and the rest is read as operands |
| Disassembly.ReadsJumpMnemonic | src/sim8086.c:113-120 | for a jump the mnemonic before the first space selects the operation, and the rest is read as a target |
| Disassembly.JumpTargetRoundTrip | src/sim8086.c:115-120 | a printed target n in -128..127 reads back as the offset byte (n - 2) mod 256 |
| Disassembly.JumpTargetReadsBack | src/sim8086.c:115-120 | the printed target of an offset byte reads back as that byte |
| Disassembly.JumpReadsBack | src/sim8086.c:113-120 | a jump's mnemonic and printed target read back as the jump |
| Disassembly.JumpTextRoundTrip | src/sim8086.c:113-120 | a jump's text reads back as the jump |
| Disassembly.SourceTextRoundTrip | src/sim8086.c:84-91 | the size keyword and source of an encodable instruction read back as its source |
| Disassembly.ReadsOperands | src/sim8086.c:86-90 | `d, t` reads back as the operands d and t read back as, when d holds no comma |
| Disassembly.OperandsTextRoundTrip | src/sim8086.c:81-91 | the operand text of an encodable MOV, ADD, SUB or CMP reads back as its operands |
| Disassembly.OperandInstructionTextRoundTrip | src/sim8086.c:74-93 | the text of an encodable MOV, ADD, SUB or CMP reads back as the instruction |
| Disassembly.InstructionTextRoundTrip | src/sim8086.c:72-126 | the text of every encodable instruction reads back as that instruction |
| Disassembly.InstructionTextInjective | src/sim8086.c:72-126 | two encodable instructions print the same text exactly when they are equal |
| Disassembly.DecodedTextRoundTrip | src/sim8086.c:72-126 | the text of every instruction the decoder produces reads back as that instruction |
| Disassembly.ExampleMovRegisterToRegister | src/sim8086_decoder.c:135-153 | the bytes 89 D9 decode, in 2 bytes, to MOV with destination CX and source BX, printed `mov cx, bx` |
| Disassembly.ExampleMovImmediateToRegister | src/sim8086_decoder.c:156-170 | the bytes B8 05 00 decode, in 3 bytes, to MOV AX with the 16-bit immediate 5, printed `mov ax, 5` |
| Disassembly.ExampleMovByteToMemory | src/sim8086.c:87-88 | the bytes C6 06 00 00 07 decode, in 5 bytes, to MOV of the 8-bit immediate 7 to address 0, printed `mov [0], byte 7` with the keyword before the source |
| Disassembly.ExampleJumpBackward | src/sim8086.c:114-120 | the bytes 75 FC decode, in 2 bytes, to JNE with offset byte FC, printed `jne $-2` |
| Disassembly.ExampleMovFromNegativeDisplacement | src/sim8086.c:27-30 | the bytes 8B 46 FE decode, in 3 bytes, to MOV AX from [bp] with displacement FFFE, printed `mov ax, [bp - 2]` |

## Left out

- `load_mem_from_stream` and `load_mem_from_file` (src/sim8086/memory.c:10-30) read from a file stream. Only the buffer loader is modelled.
- The aborts `panic` and `todo` become explicit outcomes:
  - out-of-range enum values cannot be represented;
  - an unhandled operation or operand combination is an error constructor (`UnimplementedExecution`, `WidthUndetermined`, `UnimplementedEstimation`, `UnhandledVariant`).
- The fixed-size text buffers, and the truncation that `snprintf`/`strncpy` could cause, have no counterpart: text is an unbounded string.
- Advancing `ip` past an executed instruction is done by the caller's decode loop, which is not part of this model. `Execute` changes `ip` only for a taken JNE.
- The web export layer, the command-line driver, the browser UI, the early prototype disassembler and the stale copies of the memory and simulator files are not part of this model. They hold I/O and glue, not core logic.
- Simulator.ExecuteMov: the read-back clause covers memory, word registers and (as intended) byte registers. As written, a byte-register MOV zeroes the register instead; WriteRegAsWrittenClears states that case.
- Simulator.ExecuteAddSubStores: the same restriction as ExecuteMov, for the same reason.
- Simulator.WriteRegOrMemReadsBack: the same restriction, for the same reason.
- Encoder.EncodeRoundTrip: the encoder picks one encoding per instruction, so the decoder's other encodings of the same instruction (0x83 and 0x82, the accumulator forms, the reversed-d register-to-register forms, an explicit zero displacement) are covered only by DecodedIsEncodable and ReEncodeRoundTrip, which show that they decode to instructions with a canonical encoding.
- Decoder.DecodeArithImmediateToRegMem: opcode 0x82 (w = 0, s = 1) is covered by the w = 0 clause, since the code ignores s when w = 0.

## Findings

| source | as written | input that shows it | evidently intended | confidence | as-written member | corrected member |
|---|---|---|---|---|---|---|
| src/sim8086/simulator.c:28-51 | a byte-register write ANDs the masked parent with the value | AX = 0x1234, write AL := 0x56: AX becomes 0 | merge the byte into its half and keep the other half, as the register editor does at src/web/register-field.js:57 and :60 | high, not executed | Simulator.WriteRegAsWrittenClears | Simulator.WriteRegIntendedMerges |
| src/sim8086/simulator.c:207, :219 | byte-width ADD/SUB/CMP compute and test a 16-bit result | AL = 0xFF, `add al, 1`: the result is 0x100, so zero stays clear | truncate byte results to 8 bits before setting the flags | medium, not executed | Simulator.ByteAddCarryZeroFlag | Simulator.ExecuteAddSubFlags |
| src/sim8086_decoder.c:193-221 | with w = 0 the direct address is read as one byte, and memory-to-accumulator always targets AX | A0 34 12 decodes to `mov ax, [52]` in 2 bytes | a 16-bit address and AL, giving `mov al, [4660]` in 3 bytes | high, not executed | Decoder.DecodeAccumulatorAsWritten | Decoder.DecodeAccumulatorIntended |
