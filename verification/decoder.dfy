/**
 The instruction decoder: reads one instruction from memory at a cursor and
 returns it with the cursor advanced past every byte it consumed. Encodings
 follow Table 4-12 (instruction encoding), Table 4-9 (REG field) and
 Table 4-10 (R/M field) of the Intel 8086 Family User's Manual.

 Decoding is total: reads wrap around the 64 KiB memory and there is no
 end-of-stream or missing-bytes condition.
 */
module Decoder {
  import opened Isa
  import opened Memory
  import Bits

  // ---------------------------------------------------------------------------
  // Bit fields
  // ---------------------------------------------------------------------------

  /** `byte & mask == pattern`, the test the opcode dispatcher applies. */
  predicate Matches(b: Byte, mask: Byte, pattern: Byte) {
    Bits.And(b, mask) == pattern
  }

  /** Bits 7-6 of an addressing byte. */
  function ModField(b: Byte): (f: nat)
    ensures f < 4
  {
    b / 64
  }

  /** Bits 5-3: the REG field, or the operation variant. */
  function RegField(b: Byte): (f: nat)
    ensures f < 8
  {
    (b / 8) % 8
  }

  /** Bits 2-0: the R/M field. */
  function RmField(b: Byte): (f: nat)
    ensures f < 8
  {
    b % 8
  }

  /** Bit 0 of an opcode: the w (wide) bit. */
  predicate WideBit(b: Byte) {
    b % 2 == 1
  }

  /** Bit 1 of an opcode: the d (direction) bit, or the s (sign-extend) bit. */
  predicate SecondBit(b: Byte) {
    (b / 2) % 2 == 1
  }

  // ---------------------------------------------------------------------------
  // Lookup tables and field decoders
  // ---------------------------------------------------------------------------

  /** Conditional jumps by the low four bits of opcodes 0x70-0x7F. */
  const CondJumpTable: seq<Operation> :=
    [Jo, Jno, Jb, Jnb, Je, Jne, Jbe, Jnbe, Js, Jns, Jp, Jnp, Jl, Jnl, Jle, Jnle]

  /** LOOPNZ, LOOPZ, LOOP, JCXZ by the low two bits of opcodes 0xE0-0xE3. */
  const LoopJumpTable: seq<Operation> := [Loopnz, Loopz, Loop, Jcxz]

  function CondJumpLookup(code: nat): (op: Operation)
    requires code < 16
    ensures op.IsConditionalJump()
  {
    CondJumpTable[code]
  }

  function LoopJumpLookup(code: nat): (op: Operation)
    requires code < 4
    ensures op.IsLoopFamily()
  {
    LoopJumpTable[code]
  }

  /** The low four opcode bits that select a conditional jump. */
  function CondJumpCode(op: Operation): (code: nat)
    requires op.IsConditionalJump()
    ensures code < 16
  {
    match op
    case Jo => 0  case Jno => 1  case Jb => 2   case Jnb => 3
    case Je => 4  case Jne => 5  case Jbe => 6  case Jnbe => 7
    case Js => 8  case Jns => 9  case Jp => 10  case Jnp => 11
    case Jl => 12 case Jnl => 13 case Jle => 14 case Jnle => 15
  }

  /** The low two opcode bits that select a loop-family jump. */
  function LoopJumpCode(op: Operation): (code: nat)
    requires op.IsLoopFamily()
    ensures code < 4
  {
    match op
    case Loopnz => 0 case Loopz => 1 case Loop => 2 case Jcxz => 3
  }

  /** The conditional-jump table is a bijection onto the sixteen conditional jumps. */
  lemma CondJumpTableBijective(code: nat, op: Operation)
    requires code < 16
    ensures CondJumpCode(CondJumpLookup(code)) == code
    ensures op.IsConditionalJump() ==> CondJumpLookup(CondJumpCode(op)) == op
  {
    CondJumpCodeOfLookup(code);
    if op.IsConditionalJump() {
      CondJumpLookupOfCode(op);
    }
  }

  lemma CondJumpCodeOfLookup(code: nat)
    requires code < 16
    ensures CondJumpCode(CondJumpLookup(code)) == code
  {
    if code < 8 {
      assert CondJumpTable[code] in CondJumpTable[..8];
    } else {
      assert CondJumpTable[code] in CondJumpTable[8..];
    }
  }

  lemma CondJumpLookupOfCode(op: Operation)
    requires op.IsConditionalJump()
    ensures CondJumpLookup(CondJumpCode(op)) == op
  {
  }

  /** The loop-family table is a bijection onto LOOP, LOOPZ, LOOPNZ and JCXZ. */
  lemma LoopJumpTableBijective(code: nat, op: Operation)
    requires code < 4
    ensures LoopJumpCode(LoopJumpLookup(code)) == code
    ensures op.IsLoopFamily() ==> LoopJumpLookup(LoopJumpCode(op)) == op
  {
  }

  /** `extend_sign_bit`: widens an i8 to an i16 by copying bit 7 into the high byte. */
  function ExtendSignBit(n: Byte): (r: Word)
    ensures AsSigned16(r) == AsSigned8(n)
    ensures r % 256 == n
    ensures r / 256 == if n >= 0x80 then 0xFF else 0x00
  {
    if n >= 0x80 then n + 0xFF00 else n
  }

  /** A register from a 3-bit REG or R/M field and the w bit (Table 4-9). */
  function DecodeReg(reg: nat, wide: bool): (r: Register)
    requires reg < 8
    ensures r.Ordinal() == reg + (if wide then 8 else 0)
  {
    RegisterFromOrdinal(reg + if wide then 8 else 0)
  }

  /** An addressing base from a 3-bit R/M field (Table 4-10, mod != 11). */
  function DecodeMemBase(rm: nat): (b: MemBase)
    requires rm < 8
    ensures b.Ordinal() == rm
  {
    MemBaseFromOrdinal(rm)
  }

  /** DecodeReg is injective and yields a word register exactly when w is set. */
  lemma DecodeRegInjective(r1: nat, w1: bool, r2: nat, w2: bool)
    requires r1 < 8 && r2 < 8
    ensures DecodeReg(r1, w1).IsWide() == w1
    ensures DecodeReg(r1, w1) == DecodeReg(r2, w2) <==> r1 == r2 && w1 == w2
  {
    var a := DecodeReg(r1, w1);
    var b := DecodeReg(r2, w2);
    RegisterOrdinalBijective(a, b.Ordinal());
  }

  /** Every register is decoded from its own ordinal mod 8 and its width. */
  lemma DecodeRegCovers(r: Register)
    ensures DecodeReg(r.Ordinal() % 8, r.IsWide()) == r
  {
    RegisterOrdinalBijective(r, r.Ordinal());
  }

  /** Every register-relative base is decoded from its own ordinal. */
  lemma DecodeMemBaseCovers(b: MemBase)
    requires !b.DirectAddress?
    ensures b.Ordinal() < 8 && DecodeMemBase(b.Ordinal()) == b
  {
    MemBaseOrdinalBijective(b, b.Ordinal());
  }

  // ---------------------------------------------------------------------------
  // Addressing modes (Table 4-10)
  // ---------------------------------------------------------------------------

  /** A decoded operand and the cursor after it. */
  datatype Decoded<T> = Decoded(value: T, next: Word)

  /** Number of displacement or address bytes that follow the addressing byte. */
  function DisplacementLength(mod: nat, rm: nat): nat
    requires mod < 4 && rm < 8
  {
    match mod
    case 0 => if rm == 6 then 2 else 0
    case 1 => 1
    case 2 => 2
    case 3 => 0
  }

  function DecodeRegOrMem(m: Mem, at: Word, rm: nat, mod: nat, wide: bool): (r: Decoded<RegOrMem>)
    requires rm < 8 && mod < 4
    ensures r.next == Advance(at, DisplacementLength(mod, rm))
    ensures r.value.Reg? <==> mod == 3
    ensures r.value.Reg? ==> r.value.reg == DecodeReg(rm, wide)
    ensures r.value.Mem? ==> (r.value.mem.base.DirectAddress? <==> mod == 0 && rm == 6)
    ensures r.value.Mem? && !r.value.mem.base.DirectAddress? ==> r.value.mem.base.Ordinal() == rm
    ensures mod == 0 && rm == 6 ==> r.value.mem.Address() == ReadU16(m, at)
    ensures mod == 0 && rm != 6 ==> r.value.mem.Displacement() == 0
    ensures mod == 1 ==> r.value.mem.Displacement() == AsSigned8(m[at])
    ensures mod == 2 ==> r.value.mem.Displacement() == AsSigned16(ReadU16(m, at))
  {
    if mod == 3 then
      Decoded(Reg(DecodeReg(rm, wide)), at)
    else if mod == 2 then
      var d := PullU16(m, at);
      Decoded(Mem(MemOperand(DecodeMemBase(rm), d.value)), d.next)
    else if mod == 1 then
      var d := PullU8(m, at);
      Decoded(Mem(MemOperand(DecodeMemBase(rm), ExtendSignBit(d.value))), d.next)
    else if rm == 6 then
      var a := PullU16(m, at);
      Decoded(Mem(MemOperand(DirectAddress, a.value)), a.next)
    else
      Decoded(Mem(MemOperand(DecodeMemBase(rm), 0)), at)
  }

  /** The same operand, as a source. */
  function DecodeRegOrMemToSrc(m: Mem, at: Word, rm: nat, mod: nat, wide: bool): (r: Decoded<Src>)
    requires rm < 8 && mod < 4
    ensures r.next == DecodeRegOrMem(m, at, rm, mod, wide).next
    ensures r.value.SrcReg? || r.value.SrcMem?
    ensures r.value.SrcReg? <==> mod == 3
    ensures r.value == ToSrc(DecodeRegOrMem(m, at, rm, mod, wide).value)
  {
    var d := DecodeRegOrMem(m, at, rm, mod, wide);
    Decoded(ToSrc(d.value), d.next)
  }

  function ToSrc(v: RegOrMem): Src {
    match v
    case Reg(r) => SrcReg(r)
    case Mem(mem) => SrcMem(mem)
  }

  // ---------------------------------------------------------------------------
  // Instructions (Table 4-12)
  // ---------------------------------------------------------------------------

  datatype DecodeResult =
    | Ok(inst: Instruction, next: Word)
      /** The first byte matches no recognised encoding; only it was consumed. */
    | UnknownOpcode(next: Word)
      /**
       An ADD/SUB/CMP-family encoding whose variant field is not 000, 101 or
       111: the operands are decoded but no operation is assigned.
       */
    | UnassignedOperation(variant: nat, dest: RegOrMem, src: Src, next: Word)

  /** ADD, SUB and CMP by the 3-bit variant field; None for the other five values. */
  function ArithOp(variant: nat): (op: Option<Operation>)
    ensures op.Some? <==> variant == 0 || variant == 5 || variant == 7
    ensures op.Some? ==> op.value.HasOperands() && !op.value.Mov?
    ensures variant == 0 ==> op == Some(Add)
    ensures variant == 5 ==> op == Some(Sub)
    ensures variant == 7 ==> op == Some(Cmp)
  {
    if variant == 0 then Some(Add)
    else if variant == 5 then Some(Sub)
    else if variant == 7 then Some(Cmp)
    else None
  }

  function Arith(variant: nat, dest: RegOrMem, src: Src, next: Word): DecodeResult {
    match ArithOp(variant)
    case Some(op) => Ok(Instruction(op, dest, src, UnusedOffset), next)
    case None => UnassignedOperation(variant, dest, src, next)
  }

  /** An immediate of the given width at the cursor. */
  function DecodeImmediate(m: Mem, at: Word, wide: bool): (r: Decoded<Src>)
    ensures wide ==> r.value == Imm16(ReadU16(m, at)) && r.next == Advance(at, 2)
    ensures !wide ==> r.value == Imm8(m[at]) && r.next == Advance(at, 1)
  {
    if wide then
      var i := PullU16(m, at);
      Decoded(Imm16(i.value), i.next)
    else
      var i := PullU8(m, at);
      Decoded(Imm8(i.value), i.next)
  }

  /**
   The direct address of the MOV memory/accumulator forms. As written, a
   1-byte address is read when w = 0; the encoding has a 16-bit address.
   */
  function DecodeAccumulatorAddress(f: Fidelity, m: Mem, at: Word, wide: bool): Decoded<MemOperand>
  {
    if wide || f.Intended? then
      var a := PullU16(m, at);
      Decoded(MemOperand(DirectAddress, a.value), a.next)
    else
      var a := PullU8(m, at);
      Decoded(MemOperand(DirectAddress, a.value), a.next)
  }

  /** The rows of Table 4-12 the dispatcher recognises, in the order it tests them. */
  datatype Form =
    | MovRegMem | MovImmReg | MovImmRegMem | MovMemToAcc | MovAccToMem
    | ArithRegMem | ArithImmRegMem | ArithImmAcc | CondJump | LoopJump
    | Unrecognised

  /** The first-byte tests of `decode_instruction`, applied in source order. */
  function Dispatch(b1: Byte): Form
  {
    if Matches(b1, 0xFC, 0x88) then MovRegMem
    else if Matches(b1, 0xF0, 0xB0) then MovImmReg
    else if Matches(b1, 0xFE, 0xC6) then MovImmRegMem
    else if Matches(b1, 0xFE, 0xA0) then MovMemToAcc
    else if Matches(b1, 0xFE, 0xA2) then MovAccToMem
    else if Matches(b1, 0xC4, 0x00) then ArithRegMem
    else if Matches(b1, 0xFC, 0x80) then ArithImmRegMem
    else if Matches(b1, 0xC6, 0x04) then ArithImmAcc
    else if Matches(b1, 0xF0, 0x70) then CondJump
    else if Matches(b1, 0xFC, 0xE0) then LoopJump
    else Unrecognised
  }

  /** `decode_instruction`: one instruction at cursor `at`. */
  function DecodeInstruction(f: Fidelity, m: Mem, at: Word): DecodeResult
  {
    var first := PullU8(m, at);
    DecodeForm(f, m, first.value, first.next, Dispatch(first.value))
  }

  /** The rest of an instruction whose first byte `b1` selected `form`; `c` is the cursor after it. */
  function DecodeForm(f: Fidelity, m: Mem, b1: Byte, c: Word, form: Form): DecodeResult
  {
    var wide := WideBit(b1);
    match form
    case MovRegMem =>
      // MOV: register/memory to/from register
      var second := PullU8(m, c);
      var b2 := second.value;
      var reg := DecodeReg(RegField(b2), wide);
      if SecondBit(b1) then
        var s := DecodeRegOrMemToSrc(m, second.next, RmField(b2), ModField(b2), wide);
        Ok(Instruction(Mov, Reg(reg), s.value, UnusedOffset), s.next)
      else
        var d := DecodeRegOrMem(m, second.next, RmField(b2), ModField(b2), wide);
        Ok(Instruction(Mov, d.value, SrcReg(reg), UnusedOffset), d.next)
    case MovImmReg =>
      // MOV: immediate to register; here w is bit 3
      var w := (b1 / 8) % 2 == 1;
      var i := DecodeImmediate(m, c, w);
      Ok(Instruction(Mov, Reg(DecodeReg(b1 % 8, w)), i.value, UnusedOffset), i.next)
    case MovImmRegMem =>
      // MOV: immediate to register/memory
      var second := PullU8(m, c);
      var b2 := second.value;
      var d := DecodeRegOrMem(m, second.next, RmField(b2), ModField(b2), wide);
      var i := DecodeImmediate(m, d.next, wide);
      Ok(Instruction(Mov, d.value, i.value, UnusedOffset), i.next)
    case MovMemToAcc =>
      // MOV: memory to accumulator
      var a := DecodeAccumulatorAddress(f, m, c, wide);
      var acc := if f.AsWritten? || wide then AX else AL;
      Ok(Instruction(Mov, Reg(acc), SrcMem(a.value), UnusedOffset), a.next)
    case MovAccToMem =>
      // MOV: accumulator to memory
      var a := DecodeAccumulatorAddress(f, m, c, wide);
      Ok(Instruction(Mov, Mem(a.value), SrcReg(if wide then AX else AL), UnusedOffset), a.next)
    case ArithRegMem =>
      // ADD/SUB/CMP: register/memory with register to either
      var second := PullU8(m, c);
      var b2 := second.value;
      var reg := DecodeReg(RegField(b2), wide);
      if SecondBit(b1) then
        var s := DecodeRegOrMemToSrc(m, second.next, RmField(b2), ModField(b2), wide);
        Arith(RegField(b1), Reg(reg), s.value, s.next)
      else
        var d := DecodeRegOrMem(m, second.next, RmField(b2), ModField(b2), wide);
        Arith(RegField(b1), d.value, SrcReg(reg), d.next)
    case ArithImmRegMem =>
      // ADD/SUB/CMP: immediate with register/memory; the variant is in byte 2
      var second := PullU8(m, c);
      var b2 := second.value;
      var d := DecodeRegOrMem(m, second.next, RmField(b2), ModField(b2), wide);
      var i :=
        if wide && SecondBit(b1) then
          var byte := PullU8(m, d.next);
          Decoded(Imm16(ExtendSignBit(byte.value)), byte.next)
        else DecodeImmediate(m, d.next, wide);
      Arith(RegField(b2), d.value, i.value, i.next)
    case ArithImmAcc =>
      // ADD/SUB/CMP: immediate with accumulator
      var i := DecodeImmediate(m, c, wide);
      Arith(RegField(b1), Reg(if wide then AX else AL), i.value, i.next)
    case CondJump =>
      var offset := PullU8(m, c);
      Ok(Instruction(CondJumpLookup(b1 % 16), UnusedDest, UnusedSrc, offset.value), offset.next)
    case LoopJump =>
      // LOOP, LOOPZ, LOOPNZ, JCXZ
      var offset := PullU8(m, c);
      Ok(Instruction(LoopJumpLookup(b1 % 4), UnusedDest, UnusedSrc, offset.value), offset.next)
    case Unrecognised =>
      UnknownOpcode(c)
  }

  // ---------------------------------------------------------------------------
  // Properties of the dispatcher
  // ---------------------------------------------------------------------------

  // The dispatcher's masks select exactly these first-byte ranges of Table 4-12.

  lemma MaskFC(b: Byte)
    ensures Matches(b, 0xFC, 0x88) <==> 0x88 <= b <= 0x8B
    ensures Matches(b, 0xFC, 0x80) <==> 0x80 <= b <= 0x83
    ensures Matches(b, 0xFC, 0xE0) <==> 0xE0 <= b <= 0xE3
  {
    Bits.AndMaskFC(b);
    QuarterRanges(Bits.And(b, 0xFC), b);
  }

  lemma QuarterRanges(x: nat, b: Byte)
    requires x == 4 * (b / 4)
    ensures x == 0x88 <==> 0x88 <= b <= 0x8B
    ensures x == 0x80 <==> 0x80 <= b <= 0x83
    ensures x == 0xE0 <==> 0xE0 <= b <= 0xE3
  {
  }

  lemma MaskF0(b: Byte)
    ensures Matches(b, 0xF0, 0xB0) <==> 0xB0 <= b <= 0xBF
    ensures Matches(b, 0xF0, 0x70) <==> 0x70 <= b <= 0x7F
  {
    Bits.AndMaskF0(b);
    SixteenthRanges(Bits.And(b, 0xF0), b);
  }

  lemma SixteenthRanges(x: nat, b: Byte)
    requires x == 16 * (b / 16)
    ensures x == 0xB0 <==> 0xB0 <= b <= 0xBF
    ensures x == 0x70 <==> 0x70 <= b <= 0x7F
  {
  }

  lemma MaskFE(b: Byte)
    ensures Matches(b, 0xFE, 0xC6) <==> b == 0xC6 || b == 0xC7
    ensures Matches(b, 0xFE, 0xA0) <==> b == 0xA0 || b == 0xA1
    ensures Matches(b, 0xFE, 0xA2) <==> b == 0xA2 || b == 0xA3
  {
    Bits.AndMaskFE(b);
    HalfRanges(Bits.And(b, 0xFE), b);
  }

  lemma HalfRanges(x: nat, b: Byte)
    requires x == 2 * (b / 2)
    ensures x == 0xC6 <==> b == 0xC6 || b == 0xC7
    ensures x == 0xA0 <==> b == 0xA0 || b == 0xA1
    ensures x == 0xA2 <==> b == 0xA2 || b == 0xA3
  {
  }

  lemma MaskC4(b: Byte)
    ensures Matches(b, 0xC4, 0x00) <==> b < 0x40 && b % 8 < 4
  {
    Bits.AndMaskC4(b);
    MaskC4Ranges(Bits.And(b, 0xC4), b);
  }

  lemma MaskC4Ranges(x: nat, b: Byte)
    requires x == 64 * (b / 64) + 4 * ((b / 4) % 2)
    ensures x == 0 <==> b < 0x40 && b % 8 < 4
  {
  }

  lemma MaskC6(b: Byte)
    ensures Matches(b, 0xC6, 0x04) <==> b < 0x40 && (b % 8 == 4 || b % 8 == 5)
  {
    Bits.AndMaskC6(b);
    MaskC6Ranges(Bits.And(b, 0xC6), b);
  }

  lemma MaskC6Ranges(x: nat, b: Byte)
    requires x == 64 * (b / 64) + 2 * ((b / 2) % 4)
    ensures x == 4 <==> b < 0x40 && (b % 8 == 4 || b % 8 == 5)
  {
  }

  lemma OpcodeMasks(b: Byte)
    ensures Matches(b, 0xFC, 0x88) <==> 0x88 <= b <= 0x8B
    ensures Matches(b, 0xF0, 0xB0) <==> 0xB0 <= b <= 0xBF
    ensures Matches(b, 0xFE, 0xC6) <==> b == 0xC6 || b == 0xC7
    ensures Matches(b, 0xFE, 0xA0) <==> b == 0xA0 || b == 0xA1
    ensures Matches(b, 0xFE, 0xA2) <==> b == 0xA2 || b == 0xA3
    ensures Matches(b, 0xC4, 0x00) <==> b < 0x40 && b % 8 < 4
    ensures Matches(b, 0xFC, 0x80) <==> 0x80 <= b <= 0x83
    ensures Matches(b, 0xC6, 0x04) <==> b < 0x40 && (b % 8 == 4 || b % 8 == 5)
    ensures Matches(b, 0xF0, 0x70) <==> 0x70 <= b <= 0x7F
    ensures Matches(b, 0xFC, 0xE0) <==> 0xE0 <= b <= 0xE3
  {
    MaskFC(b);
    MaskF0(b);
    MaskFE(b);
    MaskC4(b);
    MaskC6(b);
  }

  /** The first bytes the decoder recognises, by row of Table 4-12. */
  predicate IsMovRegMem(b: Byte) { 0x88 <= b <= 0x8B }
  predicate IsMovImmReg(b: Byte) { 0xB0 <= b <= 0xBF }
  predicate IsMovImmRegMem(b: Byte) { b == 0xC6 || b == 0xC7 }
  predicate IsMovAccumulator(b: Byte) { 0xA0 <= b <= 0xA3 }
  predicate IsArithRegMem(b: Byte) { b < 0x40 && b % 8 < 4 }
  predicate IsArithImmRegMem(b: Byte) { 0x80 <= b <= 0x83 }
  predicate IsArithImmAcc(b: Byte) { b < 0x40 && (b % 8 == 4 || b % 8 == 5) }
  predicate IsJump(b: Byte) { 0x70 <= b <= 0x7F || 0xE0 <= b <= 0xE3 }

  predicate IsRecognised(b: Byte) {
    IsMovRegMem(b) || IsMovImmReg(b) || IsMovImmRegMem(b) || IsMovAccumulator(b)
    || IsArithRegMem(b) || IsArithImmRegMem(b) || IsArithImmAcc(b) || IsJump(b)
  }

  /** The row of Table 4-12 a first byte belongs to, by its range; the rows are disjoint. */
  function FormOf(b: Byte): Form
  {
    if IsMovRegMem(b) then MovRegMem
    else if IsMovImmReg(b) then MovImmReg
    else if IsMovImmRegMem(b) then MovImmRegMem
    else if b == 0xA0 || b == 0xA1 then MovMemToAcc
    else if b == 0xA2 || b == 0xA3 then MovAccToMem
    else if IsArithRegMem(b) then ArithRegMem
    else if IsArithImmRegMem(b) then ArithImmRegMem
    else if IsArithImmAcc(b) then ArithImmAcc
    else if 0x70 <= b <= 0x7F then CondJump
    else if 0xE0 <= b <= 0xE3 then LoopJump
    else Unrecognised
  }

  /** The dispatcher's mask tests classify every first byte into its Table 4-12 row. */
  lemma DispatchByRange(b: Byte)
    ensures Dispatch(b) == FormOf(b)
    ensures Dispatch(b) == Unrecognised <==> !IsRecognised(b)
  {
    OpcodeMasks(b);
  }

  /** Decoding dispatches on the Table 4-12 row of the first byte and continues after it. */
  lemma DecodeByForm(f: Fidelity, m: Mem, at: Word)
    ensures DecodeInstruction(f, m, at) == DecodeForm(f, m, m[at], Advance(at, 1), FormOf(m[at]))
  {
    DispatchByRange(m[at]);
  }

  /**
   Length in bytes of the encoding that starts with b1 b2, by Table 4-12:
   opcode, addressing byte, displacement, immediate. An unrecognised first
   byte counts as one byte.
   */
  function EncodedLength(f: Fidelity, b1: Byte, b2: Byte): (n: nat)
    ensures 1 <= n <= 6
  {
    var disp := DisplacementLength(b2 / 64, b2 % 8);
    if IsMovRegMem(b1) || IsArithRegMem(b1) then 2 + disp
    else if IsMovImmReg(b1) then (if b1 >= 0xB8 then 3 else 2)
    else if IsMovImmRegMem(b1) then 2 + disp + (if b1 == 0xC7 then 2 else 1)
    else if IsMovAccumulator(b1) then (if b1 % 2 == 1 || f.Intended? then 3 else 2)
    else if IsArithImmRegMem(b1) then 2 + disp + (if b1 == 0x81 then 2 else 1)
    else if IsArithImmAcc(b1) then (if b1 % 2 == 1 then 3 else 2)
    else if IsJump(b1) then 2
    else 1
  }

  /** A first byte outside every row is reported as unknown after consuming only that byte. */
  lemma DecodeUnknown(f: Fidelity, m: Mem, at: Word)
    ensures DecodeInstruction(f, m, at).UnknownOpcode? <==> !IsRecognised(m[at])
    ensures !IsRecognised(m[at]) ==> DecodeInstruction(f, m, at).next == Advance(at, 1)
  {
    DecodeByForm(f, m, at);
  }

  /** The variant field of an ADD/SUB/CMP-family encoding. */
  function ArithVariant(m: Mem, at: Word): nat
  {
    if IsArithImmRegMem(m[at]) then RegField(m[Advance(at, 1)]) else RegField(m[at])
  }

  /** No operation is assigned exactly for ADD/SUB/CMP-family encodings with variant outside 000, 101, 111. */
  lemma DecodeUnassigned(f: Fidelity, m: Mem, at: Word)
    ensures DecodeInstruction(f, m, at).UnassignedOperation? <==>
      (IsArithRegMem(m[at]) || IsArithImmRegMem(m[at]) || IsArithImmAcc(m[at]))
      && ArithOp(ArithVariant(m, at)).None?
  {
    DecodeByForm(f, m, at);
  }

  // ---------------------------------------------------------------------------
  // Properties of each encoding. Each is stated for the rest of an instruction
  // whose first byte is b1, with c the cursor just after it; DecodeByForm
  // connects them to DecodeInstruction.
  // ---------------------------------------------------------------------------

  /**
   MOV register/memory to/from register: the REG field names one operand and
   mod/rm the other; d = 1 makes the REG operand the destination.
   */
  lemma DecodeMovRegMem(f: Fidelity, m: Mem, b1: Byte, c: Word)
    requires IsMovRegMem(b1)
    ensures var b2 := m[c];
      var w := b1 % 2 == 1;
      var reg := DecodeReg(RegField(b2), w);
      var operand := DecodeRegOrMem(m, Advance(c, 1), RmField(b2), ModField(b2), w);
      var r := DecodeForm(f, m, b1, c, FormOf(b1));
      && r.Ok? && r.inst.op == Mov && r.next == operand.next
      && (b1 >= 0x8A ==> r.inst.dest == Reg(reg) && r.inst.src == ToSrc(operand.value))
      && (b1 < 0x8A ==> r.inst.dest == operand.value && r.inst.src == SrcReg(reg))
  {
  }

  /** MOV immediate to register: an 8-bit immediate, or a 16-bit one when bit 3 is set. */
  lemma DecodeMovImmediateToRegister(f: Fidelity, m: Mem, b1: Byte, c: Word)
    requires IsMovImmReg(b1)
    ensures var w := b1 >= 0xB8;
      var r := DecodeForm(f, m, b1, c, FormOf(b1));
      && r.Ok? && r.inst.op == Mov
      && r.inst.dest == Reg(DecodeReg(b1 % 8, w))
      && (w ==> r.inst.src == Imm16(ReadU16(m, c)) && r.next == Advance(c, 2))
      && (!w ==> r.inst.src == Imm8(m[c]) && r.next == Advance(c, 1))
  {
  }

  /** MOV immediate to register/memory: the immediate follows the displacement. */
  lemma DecodeMovImmediateToRegMem(f: Fidelity, m: Mem, b1: Byte, c: Word)
    requires IsMovImmRegMem(b1)
    ensures var b2 := m[c];
      var w := b1 == 0xC7;
      var d := DecodeRegOrMem(m, Advance(c, 1), RmField(b2), ModField(b2), w);
      var r := DecodeForm(f, m, b1, c, FormOf(b1));
      && r.Ok? && r.inst.op == Mov && r.inst.dest == d.value
      && (w ==> r.inst.src == Imm16(ReadU16(m, d.next)) && r.next == Advance(d.next, 2))
      && (!w ==> r.inst.src == Imm8(m[d.next]) && r.next == Advance(d.next, 1))
  {
  }

  /**
   MOV memory/accumulator as written: with w = 0 only one address byte is
   read, and memory-to-accumulator always targets AX.
   */
  lemma DecodeAccumulatorAsWritten(m: Mem, b1: Byte, c: Word)
    requires IsMovAccumulator(b1)
    ensures var r := DecodeForm(AsWritten, m, b1, c, FormOf(b1));
      var addr := if b1 % 2 == 1 then ReadU16(m, c) else m[c];
      && r.Ok? && r.inst.op == Mov
      && r.next == Advance(c, if b1 % 2 == 1 then 2 else 1)
      && (b1 <= 0xA1 ==> r.inst.dest == Reg(AX) && r.inst.src == SrcMem(MemOperand(DirectAddress, addr)))
      && (b1 >= 0xA2 ==>
            r.inst.dest == Mem(MemOperand(DirectAddress, addr)) && r.inst.src == SrcReg(if b1 == 0xA3 then AX else AL))
  {
  }

  /** MOV memory/accumulator as the encoding defines it: a 16-bit address, AL or AX by w. */
  lemma DecodeAccumulatorIntended(m: Mem, b1: Byte, c: Word)
    requires IsMovAccumulator(b1)
    ensures var r := DecodeForm(Intended, m, b1, c, FormOf(b1));
      var addr := MemOperand(DirectAddress, ReadU16(m, c));
      var acc := if b1 % 2 == 1 then AX else AL;
      && r.Ok? && r.inst.op == Mov && r.next == Advance(c, 2)
      && (b1 <= 0xA1 ==> r.inst.dest == Reg(acc) && r.inst.src == SrcMem(addr))
      && (b1 >= 0xA2 ==> r.inst.dest == Mem(addr) && r.inst.src == SrcReg(acc))
  {
  }

  /** ADD/SUB/CMP register/memory with register: the operation comes from bits 5-3, d as for MOV. */
  lemma DecodeArithRegMem(f: Fidelity, m: Mem, b1: Byte, c: Word)
    requires IsArithRegMem(b1)
    ensures var b2 := m[c];
      var w := b1 % 2 == 1;
      var reg := DecodeReg(RegField(b2), w);
      var operand := DecodeRegOrMem(m, Advance(c, 1), RmField(b2), ModField(b2), w);
      var r := DecodeForm(f, m, b1, c, FormOf(b1));
      && r.next == operand.next
      && (SecondBit(b1) ==> r == Arith(RegField(b1), Reg(reg), ToSrc(operand.value), operand.next))
      && (!SecondBit(b1) ==> r == Arith(RegField(b1), operand.value, SrcReg(reg), operand.next))
  {
  }

  /**
   ADD/SUB/CMP immediate with register/memory: the operation comes from the
   REG field of byte 2; w = 1, s = 1 reads one byte sign-extended to a
   16-bit immediate, w = 1, s = 0 reads two bytes, w = 0 reads one byte.
   */
  lemma DecodeArithImmediateToRegMem(f: Fidelity, m: Mem, b1: Byte, c: Word)
    requires IsArithImmRegMem(b1)
    ensures var b2 := m[c];
      var w := b1 % 2 == 1;
      var d := DecodeRegOrMem(m, Advance(c, 1), RmField(b2), ModField(b2), w);
      var r := DecodeForm(f, m, b1, c, FormOf(b1));
      && (b1 == 0x83 ==> r == Arith(RegField(b2), d.value, Imm16(ExtendSignBit(m[d.next])), Advance(d.next, 1)))
      && (b1 == 0x81 ==> r == Arith(RegField(b2), d.value, Imm16(ReadU16(m, d.next)), Advance(d.next, 2)))
      && (!w ==> r == Arith(RegField(b2), d.value, Imm8(m[d.next]), Advance(d.next, 1)))
  {
  }

  /** ADD/SUB/CMP immediate with accumulator: AL and an 8-bit immediate, or AX and a 16-bit one. */
  lemma DecodeArithImmediateToAccumulator(f: Fidelity, m: Mem, b1: Byte, c: Word)
    requires IsArithImmAcc(b1)
    ensures var r := DecodeForm(f, m, b1, c, FormOf(b1));
      && (b1 % 2 == 1 ==> r == Arith(RegField(b1), Reg(AX), Imm16(ReadU16(m, c)), Advance(c, 2)))
      && (b1 % 2 == 0 ==> r == Arith(RegField(b1), Reg(AL), Imm8(m[c]), Advance(c, 1)))
  {
  }

  /** Conditional jumps 0x70-0x7F: the operation from the table by the low four bits, a signed byte offset. */
  lemma DecodeCondJump(f: Fidelity, m: Mem, b1: Byte, c: Word)
    requires 0x70 <= b1 <= 0x7F
    ensures DecodeForm(f, m, b1, c, FormOf(b1))
      == Ok(Instruction(CondJumpLookup(b1 - 0x70), UnusedDest, UnusedSrc, m[c]), Advance(c, 1))
  {
    assert FormOf(b1) == CondJump;
    assert b1 % 16 == b1 - 0x70;
  }

  /** LOOPNZ, LOOPZ, LOOP, JCXZ (0xE0-0xE3): the operation by the low two bits, a signed byte offset. */
  lemma DecodeLoopJump(f: Fidelity, m: Mem, b1: Byte, c: Word)
    requires 0xE0 <= b1 <= 0xE3
    ensures DecodeForm(f, m, b1, c, FormOf(b1))
      == Ok(Instruction(LoopJumpLookup(b1 - 0xE0), UnusedDest, UnusedSrc, m[c]), Advance(c, 1))
  {
    assert FormOf(b1) == LoopJump;
    assert b1 % 4 == b1 - 0xE0;
  }

  /** Length of the forms with an addressing byte: opcode, mod-reg-r/m, displacement, immediate. */
  lemma AddressedFormLength(f: Fidelity, m: Mem, b1: Byte, c: Word)
    requires IsMovRegMem(b1) || IsMovImmRegMem(b1) || IsArithRegMem(b1) || IsArithImmRegMem(b1)
    ensures DecodeForm(f, m, b1, c, FormOf(b1)).next == Advance(c, EncodedLength(f, b1, m[c]) - 1)
  {
    if IsMovRegMem(b1) || IsArithRegMem(b1) {
      RegMemFormLength(f, m, b1, c);
    } else {
      ImmediateRegMemFormLength(f, m, b1, c);
    }
  }

  lemma RegMemFormLength(f: Fidelity, m: Mem, b1: Byte, c: Word)
    requires IsMovRegMem(b1) || IsArithRegMem(b1)
    ensures DecodeForm(f, m, b1, c, FormOf(b1)).next == Advance(c, EncodedLength(f, b1, m[c]) - 1)
  {
    var b2 := m[c];
    AdvanceAdds(c, 1, DisplacementLength(b2 / 64, b2 % 8));
    if IsMovRegMem(b1) {
      DecodeMovRegMem(f, m, b1, c);
    } else {
      DecodeArithRegMem(f, m, b1, c);
    }
  }

  lemma ImmediateRegMemFormLength(f: Fidelity, m: Mem, b1: Byte, c: Word)
    requires IsMovImmRegMem(b1) || IsArithImmRegMem(b1)
    ensures DecodeForm(f, m, b1, c, FormOf(b1)).next == Advance(c, EncodedLength(f, b1, m[c]) - 1)
  {
    var b2 := m[c];
    var disp := DisplacementLength(b2 / 64, b2 % 8);
    var imm := if b1 == 0xC7 || b1 == 0x81 then 2 else 1;
    AdvanceAdds(c, 1, disp);
    AdvanceAdds(c, 1 + disp, imm);
    if IsMovImmRegMem(b1) {
      MovImmediateRegMemNext(f, m, b1, c);
    } else {
      ArithImmediateRegMemNext(f, m, b1, c);
    }
  }

  /** The cursor after MOV immediate to register/memory: past the operand and the immediate. */
  lemma MovImmediateRegMemNext(f: Fidelity, m: Mem, b1: Byte, c: Word)
    requires IsMovImmRegMem(b1)
    ensures var b2 := m[c];
      var d := DecodeRegOrMem(m, Advance(c, 1), RmField(b2), ModField(b2), b1 % 2 == 1);
      DecodeForm(f, m, b1, c, FormOf(b1)).next == Advance(d.next, if b1 == 0xC7 then 2 else 1)
  {
    DecodeMovImmediateToRegMem(f, m, b1, c);
  }

  /** The cursor after ADD/SUB/CMP immediate with register/memory: past the operand and the immediate. */
  lemma ArithImmediateRegMemNext(f: Fidelity, m: Mem, b1: Byte, c: Word)
    requires IsArithImmRegMem(b1)
    ensures var b2 := m[c];
      var d := DecodeRegOrMem(m, Advance(c, 1), RmField(b2), ModField(b2), b1 % 2 == 1);
      DecodeForm(f, m, b1, c, FormOf(b1)).next == Advance(d.next, if b1 == 0x81 then 2 else 1)
  {
    DecodeArithImmediateToRegMem(f, m, b1, c);
  }

  /** Length of the forms without an addressing byte: opcode and immediate, address or offset. */
  lemma UnaddressedFormLength(f: Fidelity, m: Mem, b1: Byte, c: Word)
    requires !(IsMovRegMem(b1) || IsMovImmRegMem(b1) || IsArithRegMem(b1) || IsArithImmRegMem(b1))
    ensures DecodeForm(f, m, b1, c, FormOf(b1)).next == Advance(c, EncodedLength(f, b1, m[c]) - 1)
  {
    if IsMovImmReg(b1) {
      DecodeMovImmediateToRegister(f, m, b1, c);
    } else if IsMovAccumulator(b1) {
      if f.AsWritten? {
        DecodeAccumulatorAsWritten(m, b1, c);
      } else {
        DecodeAccumulatorIntended(m, b1, c);
      }
    } else if IsArithImmAcc(b1) {
      DecodeArithImmediateToAccumulator(f, m, b1, c);
    } else if 0x70 <= b1 <= 0x7F {
      DecodeCondJump(f, m, b1, c);
    } else if 0xE0 <= b1 <= 0xE3 {
      DecodeLoopJump(f, m, b1, c);
    }
  }

  /** Every form consumes, after its first byte, the rest of the encoding's length. */
  lemma FormLength(f: Fidelity, m: Mem, b1: Byte, c: Word)
    ensures DecodeForm(f, m, b1, c, FormOf(b1)).next == Advance(c, EncodedLength(f, b1, m[c]) - 1)
  {
    if IsMovRegMem(b1) || IsMovImmRegMem(b1) || IsArithRegMem(b1) || IsArithImmRegMem(b1) {
      AddressedFormLength(f, m, b1, c);
    } else {
      UnaddressedFormLength(f, m, b1, c);
    }
  }

  /** The decoder consumes exactly the encoding's length, wrapping at the end of memory. */
  lemma DecodeLength(f: Fidelity, m: Mem, at: Word)
    ensures DecodeInstruction(f, m, at).next == Advance(at, EncodedLength(f, m[at], m[Advance(at, 1)]))
  {
    var c := Advance(at, 1);
    var n := EncodedLength(f, m[at], m[c]);
    DecodeByForm(f, m, at);
    FormLength(f, m, m[at], c);
    AdvanceAdds(at, 1, n - 1);
  }
}
