/**
 An encoder for the instructions the decoder produces: the machine code an
 assembler emits for them, one encoding per instruction (Table 4-12 of the
 Intel 8086 Family User's Manual). It is the decoder's partner: decoding an
 encoding placed anywhere in memory gives back the instruction and a cursor
 just past it, and every instruction the decoder produces can be encoded.
 */
module Encoder {
  import opened Isa
  import opened Memory
  import opened Decoder

  // ---------------------------------------------------------------------------
  // Bytes in memory
  // ---------------------------------------------------------------------------

  /**
   `bytes` is stored from `at` on, wrapping at the end of memory as the
   decoder's reads do: byte i at the address i bytes after `at`.
   */
  predicate Placed(m: Mem, at: Word, bytes: seq<Byte>) {
    forall i {:trigger m[Advance(at, i)]} | 0 <= i < |bytes| :: m[Advance(at, i)] == bytes[i]
  }

  /** The first placed byte is at `at` itself. */
  lemma PlacedHead(m: Mem, at: Word, bytes: seq<Byte>)
    requires Placed(m, at, bytes) && |bytes| > 0
    ensures m[at] == bytes[0]
  {
    assert Advance(at, 0) == at;
    assert m[Advance(at, 0)] == bytes[0];
  }

  /** Two pieces placed one after the other: each piece is placed where it starts. */
  lemma PlacedConcat(m: Mem, at: Word, a: seq<Byte>, b: seq<Byte>)
    requires Placed(m, at, a + b)
    ensures Placed(m, at, a)
    ensures Placed(m, Advance(at, |a|), b)
  {
    forall i | 0 <= i < |a|
      ensures m[Advance(at, i)] == a[i]
    {
      assert m[Advance(at, i)] == (a + b)[i];
    }
    forall j | 0 <= j < |b|
      ensures m[Advance(Advance(at, |a|), j)] == b[j]
    {
      AdvanceAdds(at, |a|, j);
      assert m[Advance(at, |a| + j)] == (a + b)[|a| + j];
    }
  }

  /** A word as its two little-endian bytes. */
  function WordBytes(v: Word): (bs: seq<Byte>)
    ensures |bs| == 2
  {
    [v % 256, v / 256]
  }

  /** Two placed little-endian bytes read back as the word they came from. */
  lemma ReadPlacedWord(m: Mem, at: Word, v: Word)
    requires Placed(m, at, WordBytes(v))
    ensures ReadU16(m, at) == v
  {
    PlacedHead(m, at, WordBytes(v));
    assert m[Advance(at, 1)] == WordBytes(v)[1];
  }

  // ---------------------------------------------------------------------------
  // Fields
  // ---------------------------------------------------------------------------

  /** The three fields of an addressing (mod-reg-r/m) byte. */
  datatype AddressingFields = AddressingFields(mod: nat, reg: nat, rm: nat) {
    predicate Valid() {
      mod < 4 && reg < 8 && rm < 8
    }

    /** The addressing byte with these fields: mod in bits 7-6, reg in 5-3, r/m in 2-0. */
    function Value(): Byte
      requires Valid()
    {
      AddressingFieldsReadBack(mod, reg, rm);
      mod * 64 + reg * 8 + rm
    }
  }

  /** Each field reads back from the addressing byte it was packed into. */
  lemma ValueFields(a: AddressingFields)
    requires a.Valid()
    ensures ModField(a.Value()) == a.mod && RegField(a.Value()) == a.reg && RmField(a.Value()) == a.rm
  {
    AddressingFieldsReadBack(a.mod, a.reg, a.rm);
  }

  /** Division by 64 and by 8 and the remainder by 8 take the packed fields apart. */
  lemma AddressingFieldsReadBack(mod: nat, reg: nat, rm: nat)
    requires mod < 4 && reg < 8 && rm < 8
    ensures (mod * 64 + reg * 8 + rm) / 64 == mod
    ensures ((mod * 64 + reg * 8 + rm) / 8) % 8 == reg
    ensures (mod * 64 + reg * 8 + rm) % 8 == rm
  {
    var low := reg * 8 + rm;
    assert 0 <= low < 64;
    assert mod * 64 + low == 64 * mod + low;
    assert (mod * 64 + reg * 8 + rm) / 8 == mod * 8 + reg;
    assert (mod * 8 + reg) % 8 == reg;
  }

  /** The 3-bit REG code of a register: with the register's width, it decodes to the register. */
  function RegCode(r: Register): (n: nat)
    ensures n < 8 && DecodeReg(n, r.IsWide()) == r
  {
    DecodeRegCovers(r);
    r.Ordinal() % 8
  }

  /** The 3-bit R/M code of a register-relative base: it decodes to the base. */
  function RmCode(b: MemBase): (n: nat)
    requires !b.DirectAddress?
    ensures n < 8 && DecodeMemBase(n) == b
  {
    DecodeMemBaseCovers(b);
    b.Ordinal()
  }

  /** The w bit for an operand width. */
  function WidthBit(wide: bool): (n: nat)
    ensures n < 2 && (n == 1 <==> wide)
  {
    if wide then 1 else 0
  }

  /** The d and w bits of an opcode built from a base with both bits clear. */
  lemma OpcodeLowBits(base: nat, d: nat, w: nat)
    requires base % 4 == 0 && d < 2 && w < 2 && base + 2 * d + w < 256
    ensures WideBit(base + 2 * d + w) <==> w == 1
    ensures SecondBit(base + 2 * d + w) <==> d == 1
  {
    var k := base / 4;
    assert base + 2 * d + w == 4 * k + 2 * d + w;
    assert (4 * k + 2 * d + w) / 2 == 2 * k + d;
  }

  /** A 16-bit displacement whose value a sign-extended byte reproduces. */
  predicate ShortDisplacement(d: Word) {
    d < 0x80 || d >= 0xFF80
  }

  /** Sign-extending the low byte of a short displacement gives the displacement back. */
  lemma ShortDisplacementExtends(d: Word)
    requires ShortDisplacement(d)
    ensures ExtendSignBit(d % 256) == d
  {
  }

  // ---------------------------------------------------------------------------
  // Operands
  // ---------------------------------------------------------------------------

  /**
   The fields of the addressing byte for an operand, with `reg` in REG.
   Register-relative operands take the shortest form: no displacement when
   it is zero (except for BP alone, whose mod = 00 code means a direct
   address), one sign-extended byte when it fits, two bytes otherwise.
   */
  function AddressingOf(reg: nat, v: RegOrMem): (a: AddressingFields)
    requires reg < 8
    ensures a.Valid() && a.reg == reg
  {
    match v
    case Reg(r) => AddressingFields(3, reg, RegCode(r))
    case Mem(mem) =>
      if mem.base.DirectAddress? then AddressingFields(0, reg, 6)
      else if mem.disp == 0 && !mem.base.BpOnly? then AddressingFields(0, reg, RmCode(mem.base))
      else if ShortDisplacement(mem.disp) then AddressingFields(1, reg, RmCode(mem.base))
      else AddressingFields(2, reg, RmCode(mem.base))
  }

  /** The bytes after the addressing byte: the address or displacement its mod field calls for. */
  function DisplacementBytes(v: RegOrMem): (bs: seq<Byte>)
    ensures |bs| <= 2
  {
    match v
    case Reg(_) => []
    case Mem(mem) =>
      if mem.base.DirectAddress? then WordBytes(mem.disp)
      else if mem.disp == 0 && !mem.base.BpOnly? then []
      else if ShortDisplacement(mem.disp) then [mem.disp % 256]
      else WordBytes(mem.disp)
  }

  /** An operand as the addressing byte followed by its displacement bytes. */
  function OperandBytes(reg: nat, v: RegOrMem): (bs: seq<Byte>)
    requires reg < 8
    ensures 1 <= |bs| <= 3
  {
    [AddressingOf(reg, v).Value()] + DisplacementBytes(v)
  }

  /**
   An operand's bytes decode to the operand, for any placement: the REG
   field carries `reg` and the cursor ends just past the bytes.
   */
  lemma OperandRoundTrip(m: Mem, at: Word, reg: nat, v: RegOrMem, wide: bool)
    requires reg < 8
    requires v.Reg? ==> v.reg.IsWide() == wide
    requires Placed(m, at, OperandBytes(reg, v))
    ensures var b2 := m[at];
      && RegField(b2) == reg
      && DecodeRegOrMem(m, Advance(at, 1), RmField(b2), ModField(b2), wide)
         == Decoded(v, Advance(at, |OperandBytes(reg, v)|))
  {
    var a := AddressingOf(reg, v);
    var c := Advance(at, 1);
    PlacedHead(m, at, OperandBytes(reg, v));
    PlacedConcat(m, at, [a.Value()], DisplacementBytes(v));
    ValueFields(a);
    if v.Mem? {
      var mem := v.mem;
      if mem.base.DirectAddress? {
        ReadPlacedWord(m, c, mem.disp);
        AdvanceAdds(at, 1, 2);
      } else if mem.disp == 0 && !mem.base.BpOnly? {
        assert RmCode(mem.base) != 6;
      } else if ShortDisplacement(mem.disp) {
        ShortDisplacementExtends(mem.disp);
        assert m[Advance(c, 0)] == DisplacementBytes(v)[0];
        assert Advance(c, 0) == c;
        AdvanceAdds(at, 1, 1);
      } else {
        ReadPlacedWord(m, c, mem.disp);
        AdvanceAdds(at, 1, 2);
      }
    }
  }

  /** An immediate as the bytes that follow the operand: one byte for Imm8, two for Imm16. */
  function ImmediateBytes(s: Src): (bs: seq<Byte>)
    requires s.IsImmediate() && (s.Imm8? ==> s.imm < 256)
    ensures |bs| == if s.Imm16? then 2 else 1
  {
    if s.Imm8? then [s.imm] else WordBytes(s.imm)
  }

  /** An immediate's bytes decode to the immediate, with its width tag. */
  lemma ImmediateRoundTrip(m: Mem, at: Word, s: Src)
    requires s.IsImmediate() && (s.Imm8? ==> s.imm < 256)
    requires Placed(m, at, ImmediateBytes(s))
    ensures DecodeImmediate(m, at, s.Imm16?) == Decoded(s, Advance(at, |ImmediateBytes(s)|))
  {
    if s.Imm16? {
      ReadPlacedWord(m, at, s.imm);
    } else {
      PlacedHead(m, at, ImmediateBytes(s));
    }
  }

  // ---------------------------------------------------------------------------
  // Instructions
  // ---------------------------------------------------------------------------

  /**
   Operands with an encoding: of one width, at most one of them in memory,
   an 8-bit immediate only with a byte destination and a 16-bit one only
   with a word register.
   */
  predicate OperandsEncodable(dest: RegOrMem, src: Src) {
    match src
    case SrcReg(q) => dest.Reg? ==> dest.reg.IsWide() == q.IsWide()
    case SrcMem(_) => dest.Reg?
    case Imm8(v) => v < 256 && (dest.Reg? ==> !dest.reg.IsWide())
    case Imm16(_) => dest.Reg? ==> dest.reg.IsWide()
  }

  /**
   The instructions that have an encoding: MOV/ADD/SUB/CMP with encodable
   operands and the jump offset unused, and jumps with the operands unused.
   */
  predicate Encodable(inst: Instruction) {
    if inst.op.HasOperands() then
      inst.jmpOffset == UnusedOffset && OperandsEncodable(inst.dest, inst.src)
    else
      inst.dest == UnusedDest && inst.src == UnusedSrc
  }

  /** The variant field (bits 5-3) that selects ADD, SUB or CMP. */
  function ArithVariantOf(op: Operation): (v: nat)
    requires op.HasOperands() && !op.Mov?
    ensures v < 8 && ArithOp(v) == Some(op)
  {
    match op
    case Add => 0
    case Sub => 5
    case Cmp => 7
  }

  /** The opcode of a MOV/ADD/SUB/CMP register/memory-with-register form with d = w = 0. */
  function RegMemBase(op: Operation): (base: nat)
    requires op.HasOperands()
    ensures base % 4 == 0 && base <= 0xFC
  {
    if op.Mov? then 0x88 else 8 * ArithVariantOf(op)
  }

  /** The REG field of the immediate forms with an addressing byte: 0 for MOV, the variant otherwise. */
  function ImmediateRegField(op: Operation): (n: nat)
    requires op.HasOperands()
    ensures n < 8
  {
    if op.Mov? then 0 else ArithVariantOf(op)
  }

  /** The opcode of a jump: 0x70-0x7F for a conditional jump, 0xE0-0xE3 for the loop family. */
  function JumpOpcode(op: Operation): (b: Byte)
    requires !op.HasOperands()
    ensures op.IsConditionalJump() ==> b == 0x70 + CondJumpCode(op)
    ensures !op.IsConditionalJump() ==> op.IsLoopFamily() && b == 0xE0 + LoopJumpCode(op)
  {
    OperationKinds(op);
    if op.IsConditionalJump() then 0x70 + CondJumpCode(op) else 0xE0 + LoopJumpCode(op)
  }

  /**
   The first byte of an instruction's encoding. MOV and ADD/SUB/CMP with two
   registers or a register and memory use the mod-reg-r/m forms (d = 1 when
   the source is in memory), MOV of an immediate to a register the short
   form 0xB0-0xBF, other immediates the forms 0xC6/0xC7 (MOV) and 0x80/0x81
   (ADD/SUB/CMP); jumps their own opcode.
   */
  function Opcode(inst: Instruction): Byte
    requires Encodable(inst)
  {
    if !inst.op.HasOperands() then JumpOpcode(inst.op)
    else if inst.src.SrcReg? then RegMemBase(inst.op) + WidthBit(inst.src.reg.IsWide())
    else if inst.src.SrcMem? then RegMemBase(inst.op) + 2 + WidthBit(inst.dest.reg.IsWide())
    else if inst.op.Mov? && inst.dest.Reg? then 0xB0 + 8 * WidthBit(inst.src.Imm16?) + RegCode(inst.dest.reg)
    else if inst.op.Mov? then 0xC6 + WidthBit(inst.src.Imm16?)
    else 0x80 + WidthBit(inst.src.Imm16?)
  }

  /**
   The bytes after the opcode: the offset of a jump; the addressing bytes of
   the operand in mod-r/m, with the other operand's register in REG; the
   immediate after them, or alone in the short form.
   */
  function Tail(inst: Instruction): (bs: seq<Byte>)
    requires Encodable(inst)
    ensures 1 <= |bs| <= 5
  {
    if !inst.op.HasOperands() then [inst.jmpOffset]
    else if inst.src.SrcReg? then OperandBytes(RegCode(inst.src.reg), inst.dest)
    else if inst.src.SrcMem? then OperandBytes(RegCode(inst.dest.reg), Mem(inst.src.mem))
    else if inst.op.Mov? && inst.dest.Reg? then ImmediateBytes(inst.src)
    else OperandBytes(ImmediateRegField(inst.op), inst.dest) + ImmediateBytes(inst.src)
  }

  /** The encoding of an instruction: its opcode, then the rest. */
  function Encode(inst: Instruction): (bs: seq<Byte>)
    requires Encodable(inst)
    ensures 2 <= |bs| <= 6
  {
    [Opcode(inst)] + Tail(inst)
  }

  /** A placed encoding: the opcode at `at`, the rest from the next address. */
  lemma EncodePlaced(m: Mem, at: Word, inst: Instruction)
    requires Encodable(inst)
    requires Placed(m, at, Encode(inst))
    ensures m[at] == Opcode(inst)
    ensures Placed(m, Advance(at, 1), Tail(inst))
    ensures Advance(at, |Encode(inst)|) == Advance(Advance(at, 1), |Tail(inst)|)
  {
    PlacedConcat(m, at, [Opcode(inst)], Tail(inst));
    PlacedHead(m, at, [Opcode(inst)]);
    AdvanceAdds(at, 1, |Tail(inst)|);
  }

  // ---------------------------------------------------------------------------
  // Decoding an encoding
  // ---------------------------------------------------------------------------

  /** Decoding any placement of an encoding gives the instruction back, with the cursor just past it. */
  lemma EncodeRoundTrip(f: Fidelity, m: Mem, at: Word, inst: Instruction)
    requires Encodable(inst)
    requires Placed(m, at, Encode(inst))
    ensures DecodeInstruction(f, m, at) == Ok(inst, Advance(at, |Encode(inst)|))
  {
    EncodePlaced(m, at, inst);
    OpcodeAndTailRoundTrip(f, m, at, inst, Advance(at, |Encode(inst)|));
  }

  /** The opcode at `at` and the rest after it decode to the instruction. */
  lemma OpcodeAndTailRoundTrip(f: Fidelity, m: Mem, at: Word, inst: Instruction, next: Word)
    requires Encodable(inst)
    requires m[at] == Opcode(inst)
    requires Placed(m, Advance(at, 1), Tail(inst))
    requires next == Advance(Advance(at, 1), |Tail(inst)|)
    ensures DecodeInstruction(f, m, at) == Ok(inst, next)
  {
    DecodeByForm(f, m, at);
    TailRoundTrip(f, m, inst, Advance(at, 1));
  }

  /** The bytes after the opcode decode to the instruction under the opcode's form. */
  lemma TailRoundTrip(f: Fidelity, m: Mem, inst: Instruction, c: Word)
    requires Encodable(inst)
    requires Placed(m, c, Tail(inst))
    ensures DecodeForm(f, m, Opcode(inst), c, FormOf(Opcode(inst))) == Ok(inst, Advance(c, |Tail(inst)|))
  {
    if !inst.op.HasOperands() {
      JumpTailRoundTrip(f, m, inst, c);
    } else if inst.src.SrcReg? {
      RegToRegMemTailRoundTrip(f, m, inst, c);
    } else if inst.src.SrcMem? {
      MemToRegTailRoundTrip(f, m, inst, c);
    } else if inst.op.Mov? && inst.dest.Reg? {
      MovImmediateToRegisterTailRoundTrip(f, m, inst, c);
    } else {
      ImmediateToRegMemTailRoundTrip(f, m, inst, c);
    }
  }

  lemma JumpTailRoundTrip(f: Fidelity, m: Mem, inst: Instruction, c: Word)
    requires Encodable(inst) && !inst.op.HasOperands()
    requires Placed(m, c, Tail(inst))
    ensures DecodeForm(f, m, Opcode(inst), c, FormOf(Opcode(inst))) == Ok(inst, Advance(c, |Tail(inst)|))
  {
    JumpParts(inst);
    PlacedHead(m, c, Tail(inst));
    JumpRoundTrip(f, m, c, inst.op, inst.jmpOffset);
  }

  lemma JumpParts(inst: Instruction)
    requires Encodable(inst) && !inst.op.HasOperands()
    ensures Opcode(inst) == JumpOpcode(inst.op)
    ensures Tail(inst) == [inst.jmpOffset]
    ensures inst == Instruction(inst.op, UnusedDest, UnusedSrc, inst.jmpOffset)
  {
  }

  lemma RegToRegMemTailRoundTrip(f: Fidelity, m: Mem, inst: Instruction, c: Word)
    requires Encodable(inst) && inst.op.HasOperands() && inst.src.SrcReg?
    requires Placed(m, c, Tail(inst))
    ensures DecodeForm(f, m, Opcode(inst), c, FormOf(Opcode(inst))) == Ok(inst, Advance(c, |Tail(inst)|))
  {
    RegToRegMemParts(inst);
    RegToRegMemRoundTrip(f, m, c, inst.op, inst.dest, inst.src.reg, Opcode(inst));
  }

  lemma RegToRegMemParts(inst: Instruction)
    requires Encodable(inst) && inst.op.HasOperands() && inst.src.SrcReg?
    ensures Opcode(inst) == RegMemBase(inst.op) + WidthBit(inst.src.reg.IsWide())
    ensures Tail(inst) == OperandBytes(RegCode(inst.src.reg), inst.dest)
    ensures inst == Instruction(inst.op, inst.dest, SrcReg(inst.src.reg), UnusedOffset)
  {
  }

  lemma MemToRegTailRoundTrip(f: Fidelity, m: Mem, inst: Instruction, c: Word)
    requires Encodable(inst) && inst.op.HasOperands() && inst.src.SrcMem?
    requires Placed(m, c, Tail(inst))
    ensures DecodeForm(f, m, Opcode(inst), c, FormOf(Opcode(inst))) == Ok(inst, Advance(c, |Tail(inst)|))
  {
    MemToRegParts(inst);
    MemToRegRoundTrip(f, m, c, inst.op, inst.dest.reg, inst.src.mem, Opcode(inst));
  }

  lemma MemToRegParts(inst: Instruction)
    requires Encodable(inst) && inst.op.HasOperands() && inst.src.SrcMem?
    ensures inst.dest.Reg?
    ensures Opcode(inst) == RegMemBase(inst.op) + 2 + WidthBit(inst.dest.reg.IsWide())
    ensures Tail(inst) == OperandBytes(RegCode(inst.dest.reg), Mem(inst.src.mem))
    ensures inst == Instruction(inst.op, Reg(inst.dest.reg), SrcMem(inst.src.mem), UnusedOffset)
  {
  }

  lemma MovImmediateToRegisterTailRoundTrip(f: Fidelity, m: Mem, inst: Instruction, c: Word)
    requires Encodable(inst) && inst.op.Mov? && inst.src.IsImmediate() && inst.dest.Reg?
    requires Placed(m, c, Tail(inst))
    ensures DecodeForm(f, m, Opcode(inst), c, FormOf(Opcode(inst))) == Ok(inst, Advance(c, |Tail(inst)|))
  {
    MovImmediateToRegisterParts(inst);
    MovImmediateToRegisterRoundTrip(f, m, c, inst.dest.reg, inst.src, Opcode(inst));
  }

  lemma MovImmediateToRegisterParts(inst: Instruction)
    requires Encodable(inst) && inst.op.Mov? && inst.src.IsImmediate() && inst.dest.Reg?
    ensures inst.dest.reg.IsWide() == inst.src.Imm16?
    ensures Opcode(inst) == 0xB0 + 8 * WidthBit(inst.src.Imm16?) + RegCode(inst.dest.reg)
    ensures Tail(inst) == ImmediateBytes(inst.src)
    ensures inst == Instruction(Mov, Reg(inst.dest.reg), inst.src, UnusedOffset)
  {
  }

  lemma ImmediateToRegMemTailRoundTrip(f: Fidelity, m: Mem, inst: Instruction, c: Word)
    requires Encodable(inst) && inst.op.HasOperands() && inst.src.IsImmediate()
    requires !(inst.op.Mov? && inst.dest.Reg?)
    requires Placed(m, c, Tail(inst))
    ensures DecodeForm(f, m, Opcode(inst), c, FormOf(Opcode(inst))) == Ok(inst, Advance(c, |Tail(inst)|))
  {
    ImmediateToRegMemParts(inst);
    ImmediateTailPlaced(m, c, inst);
    ImmediateToRegMemRoundTrip(f, m, c, inst.op, inst.dest, inst.src, Opcode(inst));
  }

  lemma ImmediateToRegMemParts(inst: Instruction)
    requires Encodable(inst) && inst.op.HasOperands() && inst.src.IsImmediate()
    requires !(inst.op.Mov? && inst.dest.Reg?)
    ensures inst.dest.Reg? ==> inst.dest.reg.IsWide() == inst.src.Imm16?
    ensures Opcode(inst) == (if inst.op.Mov? then 0xC6 else 0x80) + WidthBit(inst.src.Imm16?)
    ensures inst == Instruction(inst.op, inst.dest, inst.src, UnusedOffset)
  {
  }

  /** The addressing bytes and the immediate of an immediate form, each where it starts. */
  lemma ImmediateTailPlaced(m: Mem, c: Word, inst: Instruction)
    requires Encodable(inst) && inst.op.HasOperands() && inst.src.IsImmediate()
    requires !(inst.op.Mov? && inst.dest.Reg?)
    requires Placed(m, c, Tail(inst))
    ensures var operand := OperandBytes(ImmediateRegField(inst.op), inst.dest);
      && |Tail(inst)| == |operand| + |ImmediateBytes(inst.src)|
      && Placed(m, c, operand)
      && Placed(m, Advance(c, |operand|), ImmediateBytes(inst.src))
  {
    PlacedConcat(m, c, OperandBytes(ImmediateRegField(inst.op), inst.dest), ImmediateBytes(inst.src));
  }

  /** A jump: the opcode selects the operation, the next byte is the offset. */
  lemma JumpRoundTrip(f: Fidelity, m: Mem, c: Word, op: Operation, offset: Byte)
    requires !op.HasOperands()
    requires m[c] == offset
    ensures var b1 := JumpOpcode(op);
      DecodeForm(f, m, b1, c, FormOf(b1)) == Ok(Instruction(op, UnusedDest, UnusedSrc, offset), Advance(c, 1))
  {
    OperationKinds(op);
    if op.IsConditionalJump() {
      var code := CondJumpCode(op);
      CondJumpTableBijective(code, op);
      DecodeCondJump(f, m, 0x70 + code, c);
    } else {
      var code := LoopJumpCode(op);
      LoopJumpTableBijective(code, op);
      DecodeLoopJump(f, m, 0xE0 + code, c);
    }
  }

  /** d = 0: the source register in REG, the destination in mod-r/m. */
  lemma RegToRegMemRoundTrip(f: Fidelity, m: Mem, c: Word, op: Operation, dest: RegOrMem, q: Register, b1: Byte)
    requires op.HasOperands()
    requires dest.Reg? ==> dest.reg.IsWide() == q.IsWide()
    requires b1 == RegMemBase(op) + WidthBit(q.IsWide())
    requires Placed(m, c, OperandBytes(RegCode(q), dest))
    ensures DecodeForm(f, m, b1, c, FormOf(b1)) == Ok(Instruction(op, dest, SrcReg(q), UnusedOffset), Advance(c, |OperandBytes(RegCode(q), dest)|))
  {
    OperandRoundTrip(m, c, RegCode(q), dest, q.IsWide());
    RegToOperandDecodes(f, m, c, op, dest, q, Advance(c, |OperandBytes(RegCode(q), dest)|));
  }

  /** d = 0, given what the addressing byte's fields decode to. */
  lemma RegToOperandDecodes(f: Fidelity, m: Mem, c: Word, op: Operation, dest: RegOrMem, q: Register, next: Word)
    requires op.HasOperands()
    requires RegField(m[c]) == RegCode(q)
    requires DecodeRegOrMem(m, Advance(c, 1), RmField(m[c]), ModField(m[c]), q.IsWide()) == Decoded(dest, next)
    ensures var b1 := RegMemBase(op) + WidthBit(q.IsWide());
      DecodeForm(f, m, b1, c, FormOf(b1)) == Ok(Instruction(op, dest, SrcReg(q), UnusedOffset), next)
  {
    var b1 := RegMemBase(op) + WidthBit(q.IsWide());
    OpcodeLowBits(RegMemBase(op), 0, WidthBit(q.IsWide()));
    RegMemDecodesTo(f, m, b1, c, op, dest, SrcReg(q), next);
  }

  /** d = 1: the destination register in REG, the memory source in mod-r/m. */
  lemma MemToRegRoundTrip(f: Fidelity, m: Mem, c: Word, op: Operation, r: Register, mem: MemOperand, b1: Byte)
    requires op.HasOperands()
    requires b1 == RegMemBase(op) + 2 + WidthBit(r.IsWide())
    requires Placed(m, c, OperandBytes(RegCode(r), Mem(mem)))
    ensures DecodeForm(f, m, b1, c, FormOf(b1)) == Ok(Instruction(op, Reg(r), SrcMem(mem), UnusedOffset), Advance(c, |OperandBytes(RegCode(r), Mem(mem))|))
  {
    OperandRoundTrip(m, c, RegCode(r), Mem(mem), r.IsWide());
    MemToRegDecodes(f, m, c, op, r, mem, Advance(c, |OperandBytes(RegCode(r), Mem(mem))|));
  }

  /** d = 1, given what the addressing byte's fields decode to. */
  lemma MemToRegDecodes(f: Fidelity, m: Mem, c: Word, op: Operation, r: Register, mem: MemOperand, next: Word)
    requires op.HasOperands()
    requires RegField(m[c]) == RegCode(r)
    requires DecodeRegOrMem(m, Advance(c, 1), RmField(m[c]), ModField(m[c]), r.IsWide()) == Decoded(Mem(mem), next)
    ensures var b1 := RegMemBase(op) + 2 + WidthBit(r.IsWide());
      DecodeForm(f, m, b1, c, FormOf(b1)) == Ok(Instruction(op, Reg(r), SrcMem(mem), UnusedOffset), next)
  {
    var b1 := RegMemBase(op) + 2 + WidthBit(r.IsWide());
    OpcodeLowBits(RegMemBase(op), 1, WidthBit(r.IsWide()));
    RegMemDecodesTo(f, m, b1, c, op, Reg(r), SrcMem(mem), next);
  }

  /**
   The register/memory-with-register forms of MOV, ADD, SUB and CMP: given
   what the addressing byte's fields decode to, the instruction they make.
   */
  lemma RegMemDecodesTo(f: Fidelity, m: Mem, b1: Byte, c: Word, op: Operation, dest: RegOrMem, src: Src, next: Word)
    requires op.HasOperands()
    requires RegMemBase(op) <= b1 <= RegMemBase(op) + 3
    requires var b2 := m[c];
      var w := WideBit(b1);
      var reg := DecodeReg(RegField(b2), w);
      var operand := DecodeRegOrMem(m, Advance(c, 1), RmField(b2), ModField(b2), w);
      && operand.next == next
      && (SecondBit(b1) ==> dest == Reg(reg) && src == ToSrc(operand.value))
      && (!SecondBit(b1) ==> dest == operand.value && src == SrcReg(reg))
    ensures DecodeForm(f, m, b1, c, FormOf(b1)) == Ok(Instruction(op, dest, src, UnusedOffset), next)
  {
    if op.Mov? {
      DecodeMovRegMem(f, m, b1, c);
    } else {
      assert RegField(b1) == ArithVariantOf(op);
      DecodeArithRegMem(f, m, b1, c);
    }
  }

  /** MOV immediate to register, short form: w is bit 3, the register bits 2-0. */
  lemma MovImmediateToRegisterRoundTrip(f: Fidelity, m: Mem, c: Word, r: Register, src: Src, b1: Byte)
    requires src.IsImmediate() && (src.Imm8? ==> src.imm < 256)
    requires r.IsWide() == src.Imm16?
    requires b1 == 0xB0 + 8 * WidthBit(src.Imm16?) + RegCode(r)
    requires Placed(m, c, ImmediateBytes(src))
    ensures DecodeForm(f, m, b1, c, FormOf(b1)) == Ok(Instruction(Mov, Reg(r), src, UnusedOffset), Advance(c, |ImmediateBytes(src)|))
  {
    assert b1 % 8 == RegCode(r);
    ImmediateRoundTrip(m, c, src);
    DecodeMovImmediateToRegister(f, m, b1, c);
  }

  /** MOV (0xC6/0xC7) and ADD/SUB/CMP (0x80/0x81) immediate to register/memory. */
  lemma ImmediateToRegMemRoundTrip(f: Fidelity, m: Mem, c: Word, op: Operation, dest: RegOrMem, src: Src, b1: Byte)
    requires op.HasOperands()
    requires src.IsImmediate() && (src.Imm8? ==> src.imm < 256)
    requires dest.Reg? ==> dest.reg.IsWide() == src.Imm16?
    requires b1 == (if op.Mov? then 0xC6 else 0x80) + WidthBit(src.Imm16?)
    requires Placed(m, c, OperandBytes(ImmediateRegField(op), dest))
    requires Placed(m, Advance(c, |OperandBytes(ImmediateRegField(op), dest)|), ImmediateBytes(src))
    ensures var n := |OperandBytes(ImmediateRegField(op), dest)| + |ImmediateBytes(src)|;
      DecodeForm(f, m, b1, c, FormOf(b1)) == Ok(Instruction(op, dest, src, UnusedOffset), Advance(c, n))
  {
    OperandRoundTrip(m, c, ImmediateRegField(op), dest, src.Imm16?);
    ImmediateDecodesAfter(f, m, c, op, dest, src, |OperandBytes(ImmediateRegField(op), dest)|, b1);
  }

  /** The immediate forms, given what the addressing byte decodes to and the immediate placed after the operand. */
  lemma ImmediateDecodesAfter(f: Fidelity, m: Mem, c: Word, op: Operation, dest: RegOrMem, src: Src, k: nat, b1: Byte)
    requires op.HasOperands()
    requires src.IsImmediate() && (src.Imm8? ==> src.imm < 256)
    requires b1 == (if op.Mov? then 0xC6 else 0x80) + WidthBit(src.Imm16?)
    requires RegField(m[c]) == ImmediateRegField(op)
    requires DecodeRegOrMem(m, Advance(c, 1), RmField(m[c]), ModField(m[c]), src.Imm16?) == Decoded(dest, Advance(c, k))
    requires Placed(m, Advance(c, k), ImmediateBytes(src))
    ensures DecodeForm(f, m, b1, c, FormOf(b1)) == Ok(Instruction(op, dest, src, UnusedOffset), Advance(c, k + |ImmediateBytes(src)|))
  {
    ImmediateAfter(m, c, k, src);
    ImmediateDecodes(f, m, c, op, dest, src, Advance(c, k), Advance(c, k + |ImmediateBytes(src)|), b1);
  }

  /** An immediate placed k bytes on decodes to itself, with the cursor k plus its length bytes on. */
  lemma ImmediateAfter(m: Mem, c: Word, k: nat, src: Src)
    requires src.IsImmediate() && (src.Imm8? ==> src.imm < 256)
    requires Placed(m, Advance(c, k), ImmediateBytes(src))
    ensures DecodeImmediate(m, Advance(c, k), src.Imm16?) == Decoded(src, Advance(c, k + |ImmediateBytes(src)|))
  {
    ImmediateRoundTrip(m, Advance(c, k), src);
    AdvanceAdds(c, k, |ImmediateBytes(src)|);
  }

  /** The immediate forms with an addressing byte, given what the operand and immediate bytes decode to. */
  lemma ImmediateDecodes(f: Fidelity, m: Mem, c: Word, op: Operation, dest: RegOrMem, src: Src, mid: Word, next: Word, b1: Byte)
    requires op.HasOperands()
    requires src.IsImmediate()
    requires b1 == (if op.Mov? then 0xC6 else 0x80) + WidthBit(src.Imm16?)
    requires RegField(m[c]) == ImmediateRegField(op)
    requires DecodeRegOrMem(m, Advance(c, 1), RmField(m[c]), ModField(m[c]), src.Imm16?) == Decoded(dest, mid)
    requires DecodeImmediate(m, mid, src.Imm16?) == Decoded(src, next)
    ensures DecodeForm(f, m, b1, c, FormOf(b1)) == Ok(Instruction(op, dest, src, UnusedOffset), next)
  {
    if op.Mov? {
      DecodeMovImmediateToRegMem(f, m, b1, c);
    } else {
      DecodeArithImmediateToRegMem(f, m, b1, c);
    }
  }

  // ---------------------------------------------------------------------------
  // Encoding a decoded instruction
  // ---------------------------------------------------------------------------

  /** Every instruction the decoder produces has an encoding. */
  lemma DecodedIsEncodable(f: Fidelity, m: Mem, at: Word)
    ensures var r := DecodeInstruction(f, m, at);
      r.Ok? ==> Encodable(r.inst)
  {
    DecodeByForm(f, m, at);
    FormEncodable(f, m, m[at], Advance(at, 1));
  }

  /**
   Re-encoding what was decoded and placing it anywhere decodes to the same
   instruction, though the bytes may differ: the re-encoding is the shortest
   form (0x83 becomes 0x81, a zero 8-bit displacement is dropped).
   */
  lemma ReEncodeRoundTrip(f: Fidelity, m: Mem, at: Word, inst: Instruction, next: Word, m': Mem, at': Word)
    requires DecodeInstruction(f, m, at) == Ok(inst, next)
    requires (DecodedIsEncodable(f, m, at); Placed(m', at', Encode(inst)))
    ensures (DecodedIsEncodable(f, m, at); DecodeInstruction(f, m', at') == Ok(inst, Advance(at', |Encode(inst)|)))
  {
    DecodedIsEncodable(f, m, at);
    EncodeRoundTrip(f, m', at', inst);
  }

  /** The rest of an instruction under any first byte decodes, when it decodes, to an encodable instruction. */
  lemma FormEncodable(f: Fidelity, m: Mem, b1: Byte, c: Word)
    ensures var r := DecodeForm(f, m, b1, c, FormOf(b1));
      r.Ok? ==> Encodable(r.inst)
  {
    if IsMovRegMem(b1) || IsArithRegMem(b1) {
      RegMemEncodable(f, m, b1, c);
    } else if IsMovImmReg(b1) {
      DecodeMovImmediateToRegister(f, m, b1, c);
      DecodeRegWidth(b1 % 8, b1 >= 0xB8);
    } else if IsMovImmRegMem(b1) || IsArithImmRegMem(b1) {
      ImmediateRegMemEncodable(f, m, b1, c);
    } else if IsMovAccumulator(b1) {
      if f.AsWritten? {
        DecodeAccumulatorAsWritten(m, b1, c);
      } else {
        DecodeAccumulatorIntended(m, b1, c);
      }
    } else if IsArithImmAcc(b1) {
      DecodeArithImmediateToAccumulator(f, m, b1, c);
    } else if 0x70 <= b1 <= 0x7F {
      DecodeCondJump(f, m, b1, c);
      OperationKinds(CondJumpLookup(b1 - 0x70));
    } else if 0xE0 <= b1 <= 0xE3 {
      DecodeLoopJump(f, m, b1, c);
      OperationKinds(LoopJumpLookup(b1 - 0xE0));
    }
  }

  /** The register/memory-with-register forms: both operands have the width of the w bit. */
  lemma RegMemEncodable(f: Fidelity, m: Mem, b1: Byte, c: Word)
    requires IsMovRegMem(b1) || IsArithRegMem(b1)
    ensures var r := DecodeForm(f, m, b1, c, FormOf(b1));
      r.Ok? ==> Encodable(r.inst)
  {
    var w := b1 % 2 == 1;
    var b2 := m[c];
    DecodeRegWidth(RegField(b2), w);
    OperandWidth(m, Advance(c, 1), RmField(b2), ModField(b2), w);
    if IsMovRegMem(b1) {
      DecodeMovRegMem(f, m, b1, c);
    } else {
      DecodeArithRegMem(f, m, b1, c);
    }
  }

  /** The immediate-to-register/memory forms: the immediate has the width of the w bit, as does a register destination. */
  lemma ImmediateRegMemEncodable(f: Fidelity, m: Mem, b1: Byte, c: Word)
    requires IsMovImmRegMem(b1) || IsArithImmRegMem(b1)
    ensures var r := DecodeForm(f, m, b1, c, FormOf(b1));
      r.Ok? ==> Encodable(r.inst)
  {
    var b2 := m[c];
    if IsMovImmRegMem(b1) {
      OperandWidth(m, Advance(c, 1), RmField(b2), ModField(b2), b1 == 0xC7);
      DecodeMovImmediateToRegMem(f, m, b1, c);
    } else {
      OperandWidth(m, Advance(c, 1), RmField(b2), ModField(b2), b1 % 2 == 1);
      DecodeArithImmediateToRegMem(f, m, b1, c);
    }
  }

  /** A decoded register has the width the w bit selects. */
  lemma DecodeRegWidth(n: nat, wide: bool)
    requires n < 8
    ensures DecodeReg(n, wide).IsWide() == wide
  {
    DecodeRegInjective(n, wide, n, wide);
  }

  /** A register operand decoded from mod-r/m has the width the w bit selects. */
  lemma OperandWidth(m: Mem, at: Word, rm: nat, mod: nat, wide: bool)
    requires rm < 8 && mod < 4
    ensures var v := DecodeRegOrMem(m, at, rm, mod, wide).value;
      v.Reg? ==> v.reg.IsWide() == wide
  {
    DecodeRegWidth(rm, wide);
  }
}
