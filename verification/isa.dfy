/**
 The instruction data model of the 8086 core: fixed-ordinal enumerations for
 operations, registers and addressing bases, the register/memory/immediate
 operand unions, the decoded instruction record and the CPU state.

 Ordinals are load-bearing: the decoder turns the 3-bit REG and R/M fields
 directly into a Register or MemBase through them.
 */
module Isa {

  /** An unsigned 8-bit value (C `u8`). */
  type Byte = x: int | 0 <= x < 256

  /** An unsigned 16-bit value (C `u16`); arithmetic on it wraps explicitly. */
  type Word = x: int | 0 <= x < 65536

  /** Size of the flat address space; every Word indexes it. */
  const MemorySize: nat := 65536

  /** Number of declared operations and registers. */
  const OperationCount: nat := 24
  const RegisterCount: nat := 16

  datatype Option<T> = None | Some(value: T)

  /**
   Selects between the behaviour of the code as written and the evidently
   intended behaviour, at the three places where they differ: byte-register
   writes, byte-width arithmetic, and the memory/accumulator MOV forms with
   w = 0.
   */
  datatype Fidelity = AsWritten | Intended

  /** Reads a byte as a two's-complement 8-bit integer. */
  function AsSigned8(b: Byte): (i: int)
    ensures -128 <= i < 128
    ensures i % 256 == b
  {
    if b < 0x80 then b else b - 256
  }

  /** Reads a word as a two's-complement 16-bit integer. */
  function AsSigned16(w: Word): (i: int)
    ensures -32768 <= i < 32768
    ensures i % 65536 == w
  {
    if w < 0x8000 then w else w - 65536
  }

  // ---------------------------------------------------------------------------
  // Operations
  // ---------------------------------------------------------------------------

  datatype Operation =
    | Mov | Add | Sub | Cmp
    | Je | Jl | Jle | Jb | Jbe | Jp | Jo | Js
    | Jne | Jnl | Jnle | Jnb | Jnbe | Jnp | Jno | Jns
    | Loop | Loopz | Loopnz | Jcxz
  {
    /** The enum ordinal of the operation, in declaration order. */
    function Ordinal(): (n: nat)
      ensures n < OperationCount
    {
      match this
      case Mov => 0   case Add => 1   case Sub => 2   case Cmp => 3
      case Je => 4    case Jl => 5    case Jle => 6   case Jb => 7
      case Jbe => 8   case Jp => 9    case Jo => 10   case Js => 11
      case Jne => 12  case Jnl => 13  case Jnle => 14 case Jnb => 15
      case Jnbe => 16 case Jnp => 17  case Jno => 18  case Jns => 19
      case Loop => 20 case Loopz => 21 case Loopnz => 22 case Jcxz => 23
    }

    /** MOV/ADD/SUB/CMP: the operations that carry a destination and a source. */
    predicate HasOperands() {
      Mov? || Add? || Sub? || Cmp?
    }

    /** The sixteen conditional jumps selected by opcodes 0x70-0x7F. */
    predicate IsConditionalJump() {
      4 <= Ordinal() < 20
    }

    /** LOOP, LOOPZ, LOOPNZ and JCXZ, selected by opcodes 0xE0-0xE3. */
    predicate IsLoopFamily() {
      20 <= Ordinal()
    }
  }

  function OperationFromOrdinal(n: nat): (op: Operation)
    requires n < OperationCount
    ensures op.Ordinal() == n
  {
    [Mov, Add, Sub, Cmp, Je, Jl, Jle, Jb, Jbe, Jp, Jo, Js,
     Jne, Jnl, Jnle, Jnb, Jnbe, Jnp, Jno, Jns, Loop, Loopz, Loopnz, Jcxz][n]
  }

  /** The ordinal is a bijection between the operations and 0..23. */
  lemma OperationOrdinalBijective(op: Operation, n: nat)
    requires n < OperationCount
    ensures OperationFromOrdinal(op.Ordinal()) == op
    ensures op.Ordinal() == n <==> op == OperationFromOrdinal(n)
  {
  }

  /** Every operation has operands, is a conditional jump or is loop-family, exclusively. */
  lemma OperationKinds(op: Operation)
    ensures op.HasOperands() <==> op.Ordinal() < 4
    ensures op.HasOperands() || op.IsConditionalJump() || op.IsLoopFamily()
    ensures !(op.HasOperands() && op.IsConditionalJump())
    ensures !(op.IsConditionalJump() && op.IsLoopFamily())
  {
  }

  // ---------------------------------------------------------------------------
  // Registers
  // ---------------------------------------------------------------------------

  /** The sixteen register names, ordered as in the REG field encoding table. */
  datatype Register =
    | AL | CL | DL | BL | AH | CH | DH | BH
    | AX | CX | DX | BX | SP | BP | SI | DI
  {
    function Ordinal(): (n: nat)
      ensures n < RegisterCount
    {
      match this
      case AL => 0 case CL => 1 case DL => 2 case BL => 3
      case AH => 4 case CH => 5 case DH => 6 case BH => 7
      case AX => 8 case CX => 9 case DX => 10 case BX => 11
      case SP => 12 case BP => 13 case SI => 14 case DI => 15
    }

    /** True for the 16-bit registers AX..DI. */
    predicate IsWide() {
      match this
      case AX | CX | DX | BX | SP | BP | SI | DI => true
      case _ => false
    }

    /** True for the high-byte halves AH, CH, DH, BH. */
    predicate IsHighByte() {
      AH? || CH? || DH? || BH?
    }

    /** The 16-bit register that holds this register's storage. */
    function Parent(): (p: Register)
      ensures p.IsWide()
    {
      match this
      case AL | AH | AX => AX
      case CL | CH | CX => CX
      case DL | DH | DX => DX
      case BL | BH | BX => BX
      case SP => SP
      case BP => BP
      case SI => SI
      case DI => DI
    }
  }

  function RegisterFromOrdinal(n: nat): (r: Register)
    requires n < RegisterCount
    ensures r.Ordinal() == n
  {
    [AL, CL, DL, BL, AH, CH, DH, BH, AX, CX, DX, BX, SP, BP, SI, DI][n]
  }

  /** The register ordinal is a bijection onto 0..15 and the wide registers are exactly 8..15. */
  lemma RegisterOrdinalBijective(r: Register, n: nat)
    requires n < RegisterCount
    ensures RegisterFromOrdinal(r.Ordinal()) == r
    ensures r.Ordinal() == n <==> r == RegisterFromOrdinal(n)
    ensures r.IsWide() <==> r.Ordinal() >= 8
  {
  }

  // ---------------------------------------------------------------------------
  // Memory operands
  // ---------------------------------------------------------------------------

  /** Addressing bases in R/M-field order, then the direct-address special case. */
  datatype MemBase =
    | BxSi | BxDi | BpSi | BpDi | SiOnly | DiOnly | BpOnly | BxOnly
    | DirectAddress
  {
    function Ordinal(): (n: nat)
      ensures n <= 8
    {
      match this
      case BxSi => 0 case BxDi => 1 case BpSi => 2 case BpDi => 3
      case SiOnly => 4 case DiOnly => 5 case BpOnly => 6 case BxOnly => 7
      case DirectAddress => 8
    }
  }

  function MemBaseFromOrdinal(n: nat): (b: MemBase)
    requires n <= 8
    ensures b.Ordinal() == n
  {
    [BxSi, BxDi, BpSi, BpDi, SiOnly, DiOnly, BpOnly, BxOnly, DirectAddress][n]
  }

  lemma MemBaseOrdinalBijective(b: MemBase, n: nat)
    requires n <= 8
    ensures MemBaseFromOrdinal(b.Ordinal()) == b
    ensures b.Ordinal() == n <==> b == MemBaseFromOrdinal(n)
    ensures b.Ordinal() == 8 <==> b.DirectAddress?
  {
  }

  /**
   A memory operand. Its 16 bits are one field read two ways: a signed
   displacement for register-relative bases, an unsigned address for
   DirectAddress.
   */
  datatype MemOperand = MemOperand(base: MemBase, disp: Word)
  {
    function Displacement(): (d: int)
      ensures -32768 <= d < 32768
      ensures d % 65536 == disp
    {
      AsSigned16(disp)
    }

    function Address(): (a: nat)
      ensures a < MemorySize
    {
      disp
    }
  }

  /** A destination: a register or a memory location. */
  datatype RegOrMem = Reg(reg: Register) | Mem(mem: MemOperand)

  /**
   A source. Immediates are stored widened to 16 bits; the width tag
   selects rendering and the operand width of the instruction.
   */
  datatype Src =
    | SrcReg(reg: Register)
    | SrcMem(mem: MemOperand)
    | Imm8(imm: Word)
    | Imm16(imm: Word)
  {
    predicate IsImmediate() {
      Imm8? || Imm16?
    }
  }

  /**
   A decoded instruction. `dest` and `src` are meaningful for MOV/ADD/SUB/CMP,
   `jmpOffset` (a signed byte) for the jump and loop operations.
   */
  datatype Instruction = Instruction(op: Operation, dest: RegOrMem, src: Src, jmpOffset: Byte)

  /** Operand fields the decoder does not assign for a given encoding. */
  const UnusedDest: RegOrMem := Reg(AL)
  const UnusedSrc: Src := Imm8(0)
  const UnusedOffset: Byte := 0

  // ---------------------------------------------------------------------------
  // CPU state
  // ---------------------------------------------------------------------------

  datatype Flags = Flags(zero: bool, sign: bool)

  datatype CpuState = CpuState(
    ax: Word, bx: Word, cx: Word, dx: Word,
    sp: Word, bp: Word, si: Word, di: Word,
    flags: Flags,
    ip: Word)

  /** The all-zero state a simulation starts from. */
  const ResetCpu: CpuState := CpuState(0, 0, 0, 0, 0, 0, 0, 0, Flags(false, false), 0)
}
