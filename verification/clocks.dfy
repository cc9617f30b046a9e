/**
 The clock estimator: cycle counts for MOV and ADD by operand kinds, with the
 effective-address time of a memory operand added (Intel 8086 Family User's
 Manual, Table 2-20 for effective-address times, Table 2-21 for instructions).
 */
module Clocks {
  import opened Isa
  import Simulator

  /**
   `estimate_ea_clocks`: 6 for a direct address; otherwise 5, 7 or 8 by the
   registers involved, plus 4 when the displacement is nonzero.
   */
  function EaClocks(mem: MemOperand): (n: nat)
    ensures 5 <= n <= 12
  {
    var disp := if mem.disp != 0 then 4 else 0;
    match mem.base
    case DirectAddress => 6
    case SiOnly | DiOnly | BpOnly | BxOnly => 5 + disp
    case BpDi | BxSi => 7 + disp
    case BxDi | BpSi => 8 + disp
  }

  datatype ClockResult =
    | Clocks(clocks: nat)
      /** Operations other than MOV and ADD are not estimated. */
    | UnimplementedEstimation(op: Operation)
      /** A MOV or ADD whose operand kinds fall through every case. */
    | UnhandledVariant(op: Operation)

  /** `estimate_instruction_clocks` */
  function EstimateClocks(inst: Instruction): ClockResult
  {
    var srcMemory := inst.src.SrcMem?;
    var destMemory := inst.dest.Mem?;
    var srcReg := inst.src.SrcReg?;
    var destReg := inst.dest.Reg?;
    var srcImmediate := inst.src.Imm8? || inst.src.Imm16?;
    match inst.op
    case Mov =>
      var srcAccumulator := inst.src == SrcReg(AX);
      var destAccumulator := inst.dest == Reg(AX);
      if (srcAccumulator && destMemory) || (destAccumulator && srcMemory) then Clocks(10)
      else if srcReg && destReg then Clocks(2)
      else if destReg && srcMemory then Clocks(8 + EaClocks(inst.src.mem))
      else if destMemory && srcReg then Clocks(9 + EaClocks(inst.dest.mem))
      else if destReg && srcImmediate then Clocks(4)
      else if destMemory && srcImmediate then Clocks(10 + EaClocks(inst.dest.mem))
      else UnhandledVariant(Mov)
    case Add =>
      var destAccumulator := inst.dest == Reg(AX);
      if srcReg && destReg then Clocks(3)
      else if destReg && srcMemory then Clocks(9 + EaClocks(inst.src.mem))
      else if destMemory && srcReg then Clocks(16 + EaClocks(inst.dest.mem))
      else if destReg && srcImmediate then Clocks(4)
      else if destMemory && srcImmediate then Clocks(17 + EaClocks(inst.dest.mem))
      else if destAccumulator && srcImmediate then Clocks(4)
      else UnhandledVariant(Add)
    case _ => UnimplementedEstimation(inst.op)
  }

  // ---------------------------------------------------------------------------
  // Reference tables
  // ---------------------------------------------------------------------------

  /** Operand kinds as the timing tables distinguish them; the accumulator is AX. */
  datatype Kind = Accumulator | Register | Memory | Immediate

  function DestKind(d: RegOrMem): Kind
  {
    match d
    case Reg(r) => if r == AX then Accumulator else Register
    case Mem(_) => Memory
  }

  function SrcKind(s: Src): Kind
  {
    match s
    case SrcReg(r) => if r == AX then Accumulator else Register
    case SrcMem(_) => Memory
    case Imm8(_) => Immediate
    case Imm16(_) => Immediate
  }

  /** MOV timings by (destination, source) kind; `ea` is the memory operand's address time. */
  function MovTable(dest: Kind, src: Kind, ea: nat): Option<nat>
  {
    match (dest, src)
    case (Memory, Accumulator) => Some(10)
    case (Accumulator, Memory) => Some(10)
    case (Memory, Register) => Some(9 + ea)
    case (Memory, Immediate) => Some(10 + ea)
    case (Memory, Memory) => None
    case (_, Memory) => Some(8 + ea)
    case (_, Immediate) => Some(4)
    case (_, _) => Some(2)
  }

  /** ADD timings by (destination, source) kind; the accumulator counts as a register. */
  function AddTable(dest: Kind, src: Kind, ea: nat): Option<nat>
  {
    match (dest, src)
    case (Memory, Memory) => None
    case (Memory, Immediate) => Some(17 + ea)
    case (Memory, _) => Some(16 + ea)
    case (_, Memory) => Some(9 + ea)
    case (_, Immediate) => Some(4)
    case (_, _) => Some(3)
  }

  /** The address time of whichever operand is in memory, or 0. */
  function OperandEa(inst: Instruction): nat
  {
    if inst.dest.Mem? then EaClocks(inst.dest.mem)
    else if inst.src.SrcMem? then EaClocks(inst.src.mem)
    else 0
  }

  // ---------------------------------------------------------------------------
  // Properties
  // ---------------------------------------------------------------------------

  /** A displacement costs 4 extra clocks for register-relative addressing and nothing for a direct address. */
  lemma EaClocksDisplacement(b: MemBase, d: Word)
    ensures b.DirectAddress? ==> EaClocks(MemOperand(b, d)) == 6
    ensures !b.DirectAddress? ==>
      EaClocks(MemOperand(b, d)) == EaClocks(MemOperand(b, 0)) + (if d != 0 then 4 else 0)
  {
  }

  /** One base or index register costs 5 clocks; a pair costs 7 (BP+DI, BX+SI) or 8 (BP+SI, BX+DI). */
  lemma EaClocksByRegisterCount(b: MemBase)
    requires !b.DirectAddress?
    ensures |Simulator.BaseRegisters(b)| == 1 <==> EaClocks(MemOperand(b, 0)) == 5
    ensures |Simulator.BaseRegisters(b)| == 2 <==> EaClocks(MemOperand(b, 0)) in {7, 8}
    ensures EaClocks(MemOperand(b, 0)) == 7 <==> b.BpDi? || b.BxSi?
    ensures EaClocks(MemOperand(b, 0)) == 8 <==> b.BxDi? || b.BpSi?
  {
  }

  /** MOV follows its timing table; the memory-to-memory form is the one unhandled variant. */
  lemma MovFollowsTable(inst: Instruction)
    requires inst.op == Mov
    ensures var t := MovTable(DestKind(inst.dest), SrcKind(inst.src), OperandEa(inst));
      && (t.Some? ==> EstimateClocks(inst) == Clocks(t.value))
      && (t.None? <==> EstimateClocks(inst) == UnhandledVariant(Mov))
  {
  }

  /** ADD follows its timing table; the memory-to-memory form is the one unhandled variant. */
  lemma AddFollowsTable(inst: Instruction)
    requires inst.op == Add
    ensures var t := AddTable(DestKind(inst.dest), SrcKind(inst.src), OperandEa(inst));
      && (t.Some? ==> EstimateClocks(inst) == Clocks(t.value))
      && (t.None? <==> EstimateClocks(inst) == UnhandledVariant(Add))
  {
  }

  /** Only MOV and ADD are estimated. */
  lemma OnlyMovAndAddEstimated(inst: Instruction)
    ensures EstimateClocks(inst).UnimplementedEstimation? <==> !(inst.op.Mov? || inst.op.Add?)
  {
  }
}
