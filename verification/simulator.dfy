/**
 The execution engine: a state transformer on memory and the register file
 for MOV, ADD, SUB, CMP and JNE. The instruction pointer is not advanced
 here; the caller decodes at `ip`, which moves it past the instruction.
 */
module Simulator {
  import opened Isa
  import opened Memory
  import Bits

  // ---------------------------------------------------------------------------
  // Register file
  // ---------------------------------------------------------------------------

  /** The eight 16-bit registers, in ordinal order. */
  const WordRegisters: seq<Register> := [AX, CX, DX, BX, SP, BP, SI, DI]

  /** The storage of a 16-bit register. */
  function WordRegister(cpu: CpuState, r: Register): Word
    requires r.IsWide()
  {
    match r
    case AX => cpu.ax case CX => cpu.cx case DX => cpu.dx case BX => cpu.bx
    case SP => cpu.sp case BP => cpu.bp case SI => cpu.si case DI => cpu.di
  }

  /** Replaces the storage of one 16-bit register; nothing else changes. */
  function WithWordRegister(cpu: CpuState, r: Register, v: Word): (cpu': CpuState)
    requires r.IsWide()
    ensures WordRegister(cpu', r) == v
    ensures forall q: Register :: q.IsWide() && q != r ==> WordRegister(cpu', q) == WordRegister(cpu, q)
    ensures cpu'.flags == cpu.flags && cpu'.ip == cpu.ip
  {
    match r
    case AX => cpu.(ax := v) case CX => cpu.(cx := v) case DX => cpu.(dx := v) case BX => cpu.(bx := v)
    case SP => cpu.(sp := v) case BP => cpu.(bp := v) case SI => cpu.(si := v) case DI => cpu.(di := v)
  }

  /**
   `read_reg_value`: a 16-bit register's storage, or the low (`& 0xFF`) or
   high (`>> 8`) byte of the register that holds a byte register.
   */
  function ReadReg(cpu: CpuState, r: Register): (v: Word)
    ensures r.IsWide() ==> v == WordRegister(cpu, r)
    ensures !r.IsWide() ==> v < 256
    ensures r.IsHighByte() ==> v == WordRegister(cpu, r.Parent()) / 256
    ensures !r.IsWide() && !r.IsHighByte() ==> v == WordRegister(cpu, r.Parent()) % 256
  {
    match r
    case AL => cpu.ax % 256
    case CL => cpu.cx % 256
    case DL => cpu.dx % 256
    case BL => cpu.bx % 256
    // For a 16-bit word, `(w >> 8) & 0xFF` is w / 256.
    case AH => cpu.ax / 256
    case CH => cpu.cx / 256
    case DH => cpu.dx / 256
    case BH => cpu.bx / 256
    case AX => cpu.ax case CX => cpu.cx case DX => cpu.dx case BX => cpu.bx
    case SP => cpu.sp case BP => cpu.bp case SI => cpu.si case DI => cpu.di
  }

  /**
   The new value of the register holding a byte register after `value` is
   written to its low or high half. As written, the prior storage is masked and
   then ANDed with the value; the intended write keeps the other half and
   replaces this one with the value's low byte.
   */
  function ByteWrite(f: Fidelity, prior: Word, value: Word, high: bool): Word
  {
    match f
    case AsWritten =>
      if high then Bits.And(Bits.And(prior, 0x00FF), value * 256)
      else Bits.And(Bits.And(prior, 0xFF00), value)
    case Intended =>
      if high then prior % 256 + (value % 256) * 256
      else (prior / 256) * 256 + value % 256
  }

  /** `write_reg_value` */
  function WriteReg(f: Fidelity, cpu: CpuState, r: Register, value: Word): (cpu': CpuState)
    ensures r.IsWide() ==> ReadReg(cpu', r) == value
    ensures forall q: Register :: q.Parent() != r.Parent() ==> ReadReg(cpu', q) == ReadReg(cpu, q)
    ensures cpu'.flags == cpu.flags && cpu'.ip == cpu.ip
  {
    if r.IsWide() then WithWordRegister(cpu, r, value)
    else
      var p := r.Parent();
      WithWordRegister(cpu, p, ByteWrite(f, WordRegister(cpu, p), value, r.IsHighByte()))
  }

  /**
   As written, a byte write of a value below 256 to a low half, or of any
   value to a high half, leaves the whole register zero.
   */
  lemma ByteWriteAsWrittenClears(prior: Word, value: Word, high: bool)
    requires high || value < 256
    ensures ByteWrite(AsWritten, prior, value, high) == 0
  {
    if high {
      HighByteWriteClears(prior, value);
    } else {
      LowByteWriteClears(prior, value);
    }
  }

  lemma HighByteWriteClears(prior: Word, value: Word)
    ensures Bits.And(Bits.And(prior, 0x00FF), value * 256) == 0
  {
    var low := Bits.And(prior, 0x00FF);
    Bits.AndLowByte(prior);
    assert low < 256;
    Bits.AndDisjointBytes(value * 256, low);
  }

  lemma LowByteWriteClears(prior: Word, value: Word)
    requires value < 256
    ensures Bits.And(Bits.And(prior, 0xFF00), value) == 0
  {
    var top := Bits.And(prior, 0xFF00);
    Bits.AndHighByte(prior);
    assert top % 256 == 0;
    Bits.AndDisjointBytes(top, value);
  }

  /** As written, writing any byte register through the register file zeroes the register that holds it. */
  lemma WriteRegAsWrittenClears(cpu: CpuState, r: Register, value: Word)
    requires !r.IsWide()
    requires r.IsHighByte() || value < 256
    ensures ReadReg(WriteReg(AsWritten, cpu, r, value), r.Parent()) == 0
    ensures ReadReg(WriteReg(AsWritten, cpu, r, value), r) == 0
  {
    ByteWriteAsWrittenClears(WordRegister(cpu, r.Parent()), value, r.IsHighByte());
  }

  /** The intended byte write: the half written reads back the value's low byte, the other half is unchanged. */
  lemma WriteRegIntendedMerges(cpu: CpuState, r: Register, value: Word)
    requires !r.IsWide()
    ensures var cpu' := WriteReg(Intended, cpu, r, value);
      var before := WordRegister(cpu, r.Parent());
      var after := WordRegister(cpu', r.Parent());
      && ReadReg(cpu', r) == value % 256
      && (r.IsHighByte() ==> after % 256 == before % 256)
      && (!r.IsHighByte() ==> after / 256 == before / 256)
  {
  }

  /** Writing AL = 0x56 into AX = 0x1234: as written AX becomes 0, as intended 0x1256. */
  lemma ByteWriteDiverges()
    ensures ReadReg(WriteReg(AsWritten, ResetCpu.(ax := 0x1234), AL, 0x56), AX) == 0
    ensures ReadReg(WriteReg(Intended, ResetCpu.(ax := 0x1234), AL, 0x56), AX) == 0x1256
  {
    WriteRegAsWrittenClears(ResetCpu.(ax := 0x1234), AL, 0x56);
  }

  /** `is_reg_16bit` agrees with the register ordinals: the word registers are 8..15. */
  lemma WordRegistersAreWide(r: Register)
    ensures r.IsWide() <==> r in WordRegisters
    ensures r.Parent() in WordRegisters
    ensures r.IsWide() ==> r.Parent() == r
  {
  }

  // ---------------------------------------------------------------------------
  // Effective addresses (Table 4-10)
  // ---------------------------------------------------------------------------

  /** The registers whose sum forms each base, as Table 4-10 lists them. */
  function BaseRegisters(b: MemBase): seq<Register>
  {
    match b
    case BxSi => [BX, SI] case BxDi => [BX, DI] case BpSi => [BP, SI] case BpDi => [BP, DI]
    case SiOnly => [SI] case DiOnly => [DI] case BpOnly => [BP] case BxOnly => [BX]
    case DirectAddress => []
  }

  function SumRegisters(cpu: CpuState, rs: seq<Register>): int
  {
    if |rs| == 0 then 0 else ReadReg(cpu, rs[0]) + SumRegisters(cpu, rs[1..])
  }

  /** `read_mem_base_value`: the base registers' sum, truncated to 16 bits. */
  function BaseValue(cpu: CpuState, b: MemBase): Word
  {
    match b
    case BxSi => (ReadReg(cpu, BX) + ReadReg(cpu, SI)) % MemorySize
    case BxDi => (ReadReg(cpu, BX) + ReadReg(cpu, DI)) % MemorySize
    case BpSi => (ReadReg(cpu, BP) + ReadReg(cpu, SI)) % MemorySize
    case BpDi => (ReadReg(cpu, BP) + ReadReg(cpu, DI)) % MemorySize
    case SiOnly => ReadReg(cpu, SI)
    case DiOnly => ReadReg(cpu, DI)
    case BpOnly => ReadReg(cpu, BP)
    case BxOnly => ReadReg(cpu, BX)
    case DirectAddress => 0
  }

  /**
   `calculate_mem_address`: a direct address as it is; otherwise the base
   plus the signed displacement, wrapping to 16 bits.
   */
  function EffectiveAddress(cpu: CpuState, mem: MemOperand): (a: Word)
    ensures mem.base.DirectAddress? ==> a == mem.Address()
    ensures !mem.base.DirectAddress? ==> a == (BaseValue(cpu, mem.base) + mem.disp) % MemorySize
  {
    if mem.base.DirectAddress? then mem.Address()
    else (BaseValue(cpu, mem.base) + mem.Displacement()) % MemorySize
  }

  /** Every base sums the registers Table 4-10 lists for it, wrapping to 16 bits. */
  lemma BaseValueFollowsTable(cpu: CpuState, b: MemBase)
    ensures BaseValue(cpu, b) == SumRegisters(cpu, BaseRegisters(b)) % MemorySize
  {
    var rs := BaseRegisters(b);
    if |rs| == 2 {
      assert rs[1..][1..] == [];
      assert SumRegisters(cpu, rs[1..]) == ReadReg(cpu, rs[1]) + SumRegisters(cpu, []);
    }
  }

  /**
   The effective address of a register-relative operand is the sum of its
   table registers and its displacement read unsigned, modulo 2^16.
   */
  lemma EffectiveAddressFollowsTable(cpu: CpuState, mem: MemOperand)
    requires !mem.base.DirectAddress?
    ensures EffectiveAddress(cpu, mem) == (SumRegisters(cpu, BaseRegisters(mem.base)) + mem.disp) % MemorySize
  {
    BaseValueFollowsTable(cpu, mem.base);
    ModOfSum(SumRegisters(cpu, BaseRegisters(mem.base)), mem.disp, mem.Displacement());
  }

  /** Reducing the first summand first, or adding any d' congruent to d, does not change a sum modulo 2^16. */
  lemma ModOfSum(x: int, d: int, d': int)
    requires d' % MemorySize == d % MemorySize
    ensures (x % MemorySize + d') % MemorySize == (x + d) % MemorySize
  {
  }

  // ---------------------------------------------------------------------------
  // Operand access
  // ---------------------------------------------------------------------------

  /** Memory and registers together. */
  datatype Machine = Machine(mem: Mem, cpu: CpuState)

  /** `read_mem_value` */
  function ReadMem(s: Machine, loc: MemOperand, wide: bool): Word
  {
    var a := EffectiveAddress(s.cpu, loc);
    if wide then ReadU16(s.mem, a) else ReadU8(s.mem, a)
  }

  /** `write_mem_value`: a byte write keeps the low byte of the value (the u8 parameter). */
  function WriteMem(s: Machine, loc: MemOperand, value: Word, wide: bool): Mem
  {
    var a := EffectiveAddress(s.cpu, loc);
    if wide then WriteU16(s.mem, a, value) else WriteU8(s.mem, a, value % 256)
  }

  /** `read_src_value` */
  function ReadSrc(s: Machine, src: Src, wide: bool): Word
  {
    match src
    case SrcReg(r) => ReadReg(s.cpu, r)
    case Imm8(v) => v
    case Imm16(v) => v
    case SrcMem(loc) => ReadMem(s, loc, wide)
  }

  /** `read_reg_or_mem_value` */
  function ReadRegOrMem(s: Machine, v: RegOrMem, wide: bool): Word
  {
    match v
    case Reg(r) => ReadReg(s.cpu, r)
    case Mem(loc) => ReadMem(s, loc, wide)
  }

  /**
   `write_reg_or_mem_value`: only the destination changes. A register write
   leaves memory and every register held by another word register alone; a
   memory write leaves the registers and every byte other than the one or two
   written alone.
   */
  function WriteRegOrMem(f: Fidelity, s: Machine, v: RegOrMem, value: Word, wide: bool): (s': Machine)
    ensures v.Reg? ==> s'.mem == s.mem
    ensures v.Reg? ==> forall q: Register :: q.Parent() != v.reg.Parent() ==> ReadReg(s'.cpu, q) == ReadReg(s.cpu, q)
    ensures v.Mem? ==> s'.cpu == s.cpu
    ensures v.Mem? ==> var a := EffectiveAddress(s.cpu, v.mem);
      forall i :: 0 <= i < MemorySize && i != a && (wide ==> i != (a + 1) % MemorySize) ==> s'.mem[i] == s.mem[i]
    ensures s'.cpu.flags == s.cpu.flags && s'.cpu.ip == s.cpu.ip
  {
    match v
    case Reg(r) => s.(cpu := WriteReg(f, s.cpu, r, value))
    case Mem(loc) => s.(mem := WriteMem(s, loc, value, wide))
  }

  /**
   A value written to an operand of matching width reads back at that width:
   in full from a word, as its low byte from a byte of memory, and, as
   intended, as its low byte from a byte register.
   */
  lemma WriteRegOrMemReadsBack(f: Fidelity, s: Machine, v: RegOrMem, value: Word, wide: bool)
    requires v.Reg? ==> v.reg.IsWide() == wide
    requires v.Mem? || wide || f.Intended?
    ensures ReadRegOrMem(WriteRegOrMem(f, s, v, value, wide), v, wide)
      == if wide then value else value % 256
  {
    if v.Mem? {
      var a := EffectiveAddress(s.cpu, v.mem);
      if wide {
        WriteThenReadU16(s.mem, a, value);
      }
    } else if !wide {
      WriteRegIntendedMerges(s.cpu, v.reg, value);
    }
  }

  // ---------------------------------------------------------------------------
  // Instruction width and flags
  // ---------------------------------------------------------------------------

  /**
   `are_instruction_operands_16bit`: the destination register's width, else
   the source register's, else the immediate's tag. Memory to memory has no
   width.
   */
  function OperandsWide(inst: Instruction): (w: Option<bool>)
    ensures w.None? <==> inst.dest.Mem? && inst.src.SrcMem?
    ensures inst.dest.Reg? ==> w == Some(inst.dest.reg.IsWide())
    ensures inst.dest.Mem? && inst.src.SrcReg? ==> w == Some(inst.src.reg.IsWide())
    ensures inst.dest.Mem? && inst.src.IsImmediate() ==> w == Some(inst.src.Imm16?)
  {
    if inst.dest.Reg? then Some(inst.dest.reg.IsWide())
    else if inst.src.SrcReg? then Some(inst.src.reg.IsWide())
    else if inst.src.Imm8? then Some(false)
    else if inst.src.Imm16? then Some(true)
    else None
  }

  /** `update_sign_flag`: bit 15 of the result for word operands, bit 7 for byte operands. */
  function SignBit(result: Word, wide: bool): bool
  {
    if wide then (result / 32768) % 2 == 1 else (result / 128) % 2 == 1
  }

  /**
   The ADD or SUB result. As written it is a u16 sum or difference whatever
   the operand width; the intended byte result is truncated to 8 bits.
   */
  function ArithResult(f: Fidelity, isAdd: bool, d: Word, s: Word, wide: bool): (r: Word)
    ensures f.Intended? && !wide ==> r == (if isAdd then d + s else d - s) % 256
    ensures (f.AsWritten? || wide) ==> r == (if isAdd then d + s else d - s) % 65536
  {
    var raw := (if isAdd then d + s else d - s) % 65536;
    if f.Intended? && !wide then Mod256OfMod65536(if isAdd then d + s else d - s); raw % 256 else raw
  }

  lemma Mod256OfMod65536(x: int)
    ensures (x % 65536) % 256 == x % 256
  {
  }

  // ---------------------------------------------------------------------------
  // Execution
  // ---------------------------------------------------------------------------

  datatype ExecResult =
    | Executed(next: Machine)
      /** An operation the engine does not execute (every jump except JNE, and the loops). */
    | UnimplementedExecution(op: Operation)
      /** Memory-to-memory operands: the width cannot be derived. */
    | WidthUndetermined

  /** `execute_instruction` */
  function Execute(f: Fidelity, s: Machine, inst: Instruction): ExecResult
  {
    match inst.op
    case Mov =>
      (match OperandsWide(inst)
       case None => WidthUndetermined
       case Some(w) => Executed(WriteRegOrMem(f, s, inst.dest, ReadSrc(s, inst.src, w), w)))
    case Add => ExecuteArith(f, s, inst, true, true)
    case Sub => ExecuteArith(f, s, inst, false, true)
    case Cmp => ExecuteArith(f, s, inst, false, false)
    case Jne =>
      if s.cpu.flags.zero then Executed(s)
      else Executed(s.(cpu := s.cpu.(ip := (s.cpu.ip + AsSigned8(inst.jmpOffset)) % MemorySize)))
    case _ => UnimplementedExecution(inst.op)
  }

  /** The machine with the zero and sign flags set from `result`. */
  function WithFlags(s: Machine, result: Word, wide: bool): Machine
  {
    s.(cpu := s.cpu.(flags := Flags(result == 0, SignBit(result, wide))))
  }

  /** ADD, SUB and CMP: flags from the result, which is stored unless the operation is CMP. */
  function ExecuteArith(f: Fidelity, s: Machine, inst: Instruction, isAdd: bool, store: bool): ExecResult
  {
    match OperandsWide(inst)
    case None => WidthUndetermined
    case Some(w) =>
      var d := ReadRegOrMem(s, inst.dest, w);
      var v := ReadSrc(s, inst.src, w);
      var result := ArithResult(f, isAdd, d, v, w);
      var flagged := WithFlags(s, result, w);
      if store then Executed(WriteRegOrMem(f, flagged, inst.dest, result, w)) else Executed(flagged)
  }

  // ---------------------------------------------------------------------------
  // Properties of execution
  // ---------------------------------------------------------------------------

  /** Only MOV, ADD, SUB, CMP and JNE execute; every other operation is reported. */
  lemma ExecuteUnimplemented(f: Fidelity, s: Machine, inst: Instruction)
    ensures Execute(f, s, inst).UnimplementedExecution? <==> !(inst.op.HasOperands() || inst.op.Jne?)
  {
  }

  /**
   MOV copies the source, read at the derived width, into the destination;
   flags, ip, the registers of other word registers and the memory bytes
   not written are unchanged. It reads back in full from memory and word
   registers, and (as intended) as its low byte from byte registers.
   */
  lemma ExecuteMov(f: Fidelity, s: Machine, inst: Instruction)
    requires inst.op == Mov
    requires !(inst.dest.Mem? && inst.src.SrcMem?)
    ensures var w := OperandsWide(inst).value;
      var value := ReadSrc(s, inst.src, w);
      var r := Execute(f, s, inst);
      && r.Executed?
      && r.next.cpu.flags == s.cpu.flags && r.next.cpu.ip == s.cpu.ip
      && (inst.dest.Mem? ==> r.next.cpu == s.cpu)
      && (inst.dest.Reg? ==> r.next.mem == s.mem)
      && (inst.dest.Reg? ==> forall q: Register :: q.Parent() != inst.dest.reg.Parent() ==>
            ReadReg(r.next.cpu, q) == ReadReg(s.cpu, q))
      && (inst.dest.Mem? ==> var a := EffectiveAddress(s.cpu, inst.dest.mem);
            forall i :: 0 <= i < MemorySize && i != a && (w ==> i != (a + 1) % MemorySize) ==>
              r.next.mem[i] == s.mem[i])
      && ((inst.dest.Mem? || w || f.Intended?) ==>
            ReadRegOrMem(r.next, inst.dest, w) == if w then value else value % 256)
  {
    var w := OperandsWide(inst).value;
    var value := ReadSrc(s, inst.src, w);
    if inst.dest.Mem? || w || f.Intended? {
      WriteRegOrMemReadsBack(f, s, inst.dest, value, w);
    }
  }

  /**
   ADD and SUB set the zero flag when the result is zero and the sign flag
   to its top bit at the operand width; the result is the u16 sum or
   difference, or as intended for byte operands the 8-bit one. ip is unchanged.
   */
  lemma ExecuteAddSubFlags(f: Fidelity, s: Machine, inst: Instruction)
    requires inst.op == Add || inst.op == Sub
    requires !(inst.dest.Mem? && inst.src.SrcMem?)
    ensures var w := OperandsWide(inst).value;
      var d := ReadRegOrMem(s, inst.dest, w);
      var v := ReadSrc(s, inst.src, w);
      var exact := if inst.op == Add then d + v else d - v;
      var result := if f.Intended? && !w then exact % 256 else exact % 65536;
      var r := Execute(f, s, inst);
      && r.Executed?
      && r.next.cpu.flags == Flags(result == 0, SignBit(result, w))
      && r.next.cpu.ip == s.cpu.ip
  {
  }

  /**
   ADD and SUB write their result, at the operand width, to the destination
   after setting the flags. Nothing else changes but the flags: a memory
   destination leaves every register and every other byte alone, a register
   destination leaves memory and the registers of other word registers
   alone, and ip is unchanged.
   */
  lemma ExecuteAddSubWrites(f: Fidelity, s: Machine, inst: Instruction)
    requires inst.op == Add || inst.op == Sub
    requires !(inst.dest.Mem? && inst.src.SrcMem?)
    ensures var w := OperandsWide(inst).value;
      var result := ArithResult(f, inst.op == Add, ReadRegOrMem(s, inst.dest, w), ReadSrc(s, inst.src, w), w);
      Execute(f, s, inst) == Executed(WriteRegOrMem(f, WithFlags(s, result, w), inst.dest, result, w))
    ensures var r := Execute(f, s, inst);
      && r.Executed?
      && r.next.cpu.ip == s.cpu.ip
      && (inst.dest.Mem? ==> r.next.cpu == s.cpu.(flags := r.next.cpu.flags))
      && (inst.dest.Reg? ==> r.next.mem == s.mem)
      && (inst.dest.Reg? ==> forall q: Register :: q.Parent() != inst.dest.reg.Parent() ==>
            ReadReg(r.next.cpu, q) == ReadReg(s.cpu, q))
      && (inst.dest.Mem? ==> var a := EffectiveAddress(s.cpu, inst.dest.mem);
            forall i :: 0 <= i < MemorySize && i != a && (OperandsWide(inst).value ==> i != (a + 1) % MemorySize) ==>
              r.next.mem[i] == s.mem[i])
  {
    var w := OperandsWide(inst).value;
    var result := ArithResult(f, inst.op == Add, ReadRegOrMem(s, inst.dest, w), ReadSrc(s, inst.src, w), w);
    var flagged := WithFlags(s, result, w);
    assert Execute(f, s, inst) == Executed(WriteRegOrMem(f, flagged, inst.dest, result, w));
    if inst.dest.Mem? {
      FlagsDoNotAddress(s.cpu, flagged.cpu.flags, inst.dest.mem);
    }
  }

  /** The effective address reads only registers, never the flags. */
  lemma FlagsDoNotAddress(cpu: CpuState, flags: Flags, mem: MemOperand)
    ensures EffectiveAddress(cpu.(flags := flags), mem) == EffectiveAddress(cpu, mem)
  {
  }

  /**
   ADD and SUB store the result in the destination: it reads back from
   memory and word registers, and as intended from byte registers too.
   */
  lemma ExecuteAddSubStores(f: Fidelity, s: Machine, inst: Instruction)
    requires inst.op == Add || inst.op == Sub
    requires !(inst.dest.Mem? && inst.src.SrcMem?)
    requires inst.dest.Mem? || OperandsWide(inst).value || f.Intended?
    ensures var w := OperandsWide(inst).value;
      var result := ArithResult(f, inst.op == Add, ReadRegOrMem(s, inst.dest, w), ReadSrc(s, inst.src, w), w);
      var r := Execute(f, s, inst);
      && r.Executed?
      && ReadRegOrMem(r.next, inst.dest, w) == if w then result else result % 256
  {
    var w := OperandsWide(inst).value;
    var result := ArithResult(f, inst.op == Add, ReadRegOrMem(s, inst.dest, w), ReadSrc(s, inst.src, w), w);
    var flagged := WithFlags(s, result, w);
    ExecuteAddSubWrites(f, s, inst);
    WriteRegOrMemReadsBack(f, flagged, inst.dest, result, w);
  }

  /** CMP sets exactly the flags SUB sets and changes no register, no memory and not ip. */
  lemma ExecuteCmpIsSubWithoutStore(f: Fidelity, s: Machine, inst: Instruction)
    requires inst.op == Cmp
    requires !(inst.dest.Mem? && inst.src.SrcMem?)
    ensures var r := Execute(f, s, inst);
      var sub := Execute(f, s, inst.(op := Sub));
      && r.Executed? && sub.Executed?
      && r.next.cpu.flags == sub.next.cpu.flags
      && r.next == s.(cpu := s.cpu.(flags := r.next.cpu.flags))
  {
  }

  /** JNE moves ip by the signed offset, wrapping, exactly when the zero flag is clear; nothing else changes. */
  lemma ExecuteJne(f: Fidelity, s: Machine, inst: Instruction)
    requires inst.op == Jne
    ensures var r := Execute(f, s, inst);
      && r.Executed?
      && r.next.mem == s.mem
      && r.next.cpu.(ip := s.cpu.ip) == s.cpu
      && (r.next.cpu.ip != s.cpu.ip ==> !s.cpu.flags.zero)
      && (!s.cpu.flags.zero ==> r.next.cpu.ip == (s.cpu.ip + AsSigned8(inst.jmpOffset)) % MemorySize)
  {
  }

  /**
   A byte sum that carries: with AL = 0xFF, `add al, 1` leaves zero clear as
   written (the u16 result is 0x100) and sets it as intended.
   */
  lemma ByteAddCarryZeroFlag(s: Machine)
    requires ReadReg(s.cpu, AL) == 0xFF
    ensures var inst := Instruction(Add, Reg(AL), Imm8(1), UnusedOffset);
      && Execute(AsWritten, s, inst).Executed?
      && !Execute(AsWritten, s, inst).next.cpu.flags.zero
      && Execute(Intended, s, inst).Executed?
      && Execute(Intended, s, inst).next.cpu.flags.zero
  {
    var inst := Instruction(Add, Reg(AL), Imm8(1), UnusedOffset);
    ExecuteAddSubFlags(AsWritten, s, inst);
    ExecuteAddSubFlags(Intended, s, inst);
  }
}
