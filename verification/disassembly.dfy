/**
 Disassembly: the text `instruction_to_str` gives a decoded instruction,
 and reading that text back. The reading shows that the text loses
 nothing: every instruction the decoder produces is recovered from its text.
 */
module Disassembly {
  import opened Isa
  import opened Memory
  import opened Decoder
  import opened Encoder
  import opened Renderer

  // ---------------------------------------------------------------------------
  // Reading instruction text back
  // ---------------------------------------------------------------------------

  /** Splits `s` at the first occurrence of `c`, dropping it. */
  function SplitAt(s: string, c: char): (r: Option<(string, string)>)
    ensures r.Some? ==> c !in r.value.0 && s == r.value.0 + [c] + r.value.1
    decreases |s|
  {
    if |s| == 0 then None
    else if s[0] == c then Some(([], s[1..]))
    else
      match SplitAt(s[1..], c)
      case None => None
      case Some((a, b)) => Some(([s[0]] + a, b))
  }

  /** Text with `c` after a prefix without it splits at that `c`. */
  lemma {:induction false} SplitAtFirst(p: string, c: char, t: string)
    requires c !in p
    ensures SplitAt(p + [c] + t, c) == Some((p, t))
    decreases |p|
  {
    if |p| == 0 {
      assert p + [c] + t == [c] + t;
    } else {
      assert (p + [c] + t)[1..] == p[1..] + [c] + t;
      SplitAtFirst(p[1..], c, t);
      assert [p[0]] + p[1..] == p;
    }
  }

  /** Reads back a source after `, `: a size keyword selects the immediate's width, otherwise the destination does. */
  function SourceFromText(dest: RegOrMem, t: string): Option<Src>
  {
    if 5 <= |t| && t[..5] == "word " then SrcFromText(t[5..], true)
    else if 5 <= |t| && t[..5] == "byte " then SrcFromText(t[5..], false)
    else SrcFromText(t, dest.Reg? && dest.reg.IsWide())
  }

  /** Reads back the operands of MOV, ADD, SUB or CMP: `dest, src`, with a size keyword before an immediate to memory. */
  function OperandsFromText(op: Operation, rest: string): Option<Instruction>
  {
    match SplitAt(rest, ',')
    case None => None
    case Some((d, after)) =>
      if |after| == 0 || after[0] != ' ' then None
      else
        match RegOrMemFromText(d)
        case None => None
        case Some(dest) =>
          match SourceFromText(dest, after[1..])
          case None => None
          case Some(v) => Some(Instruction(op, dest, v, UnusedOffset))
  }

  /** The printed form of a jump target n: `$+n` when n >= 0, `$-|n|` otherwise. */
  function JumpTargetText(n: int): (t: string)
    ensures 3 <= |t| && t[0] == '$' && (t[1] == '+' <==> n >= 0) && (t[1] == '-' <==> n < 0)
  {
    "$" + [if n >= 0 then '+' else '-'] + NatText(if n >= 0 then n else -n)
  }

  /** Reads back a jump target `$+n` or `$-n` as the offset byte that prints it. */
  function JumpFromText(op: Operation, rest: string): Option<Instruction>
  {
    if |rest| < 3 || rest[0] != '$' || (rest[1] != '+' && rest[1] != '-') then None
    else
      match NumeralValue(rest[2..])
      case None => None
      case Some(n) =>
        var shown: int := if rest[1] == '+' then n else 0 - n;
        if -128 <= shown < 128 then Some(Instruction(op, UnusedDest, UnusedSrc, (shown - 2) % 256)) else None
  }

  /** Reads back an instruction's text: the mnemonic up to the first space, then its operands or target. */
  function InstructionFromText(s: string): Option<Instruction>
  {
    match SplitAt(s, ' ')
    case None => None
    case Some((mnemonic, rest)) =>
      match OperationFromMnemonic(mnemonic)
      case None => None
      case Some(op) => if op.HasOperands() then OperandsFromText(op, rest) else JumpFromText(op, rest)
  }

  // ---------------------------------------------------------------------------
  // Round trips
  // ---------------------------------------------------------------------------

  /** The printed jump target determines the offset byte: subtracting 2 modulo 256 gives it back. */
  lemma JumpDisplayOffsetInverse(offset: Byte)
    ensures (JumpDisplayOffset(offset) - 2) % 256 == offset
  {
    var n := JumpDisplayOffset(offset);
    assert n % 256 == (offset + 2) % 256;
  }

  /** Regrouping concatenations: the head, then everything after it. */
  lemma RegroupAfterHead(a: string, b: string, c: string, d: string, e: string)
    ensures a + b + c + d + e == a + (b + c + d + e)
  {
  }

  /** A jump prints as its mnemonic, a space and its target: the offset plus two as an i8. */
  lemma JumpText(inst: Instruction)
    requires !inst.op.HasOperands()
    ensures InstructionText(inst) == Mnemonic(inst.op) + [' '] + JumpTargetText(JumpDisplayOffset(inst.jmpOffset))
  {
    var n := JumpDisplayOffset(inst.jmpOffset);
    if n < 0 {
      assert IntText(n) == "-" + NatText(-n);
    }
  }

  /** MOV/ADD/SUB/CMP prints as its mnemonic, a space and its operands. */
  lemma OperandText(inst: Instruction)
    requires inst.op.HasOperands()
    ensures InstructionText(inst) == Mnemonic(inst.op) + [' '] + (RegOrMemText(inst.dest) + ", " + SizeKeyword(inst) + SrcText(inst.src))
  {
    RegroupAfterHead(Mnemonic(inst.op), " ", RegOrMemText(inst.dest) + ", ", SizeKeyword(inst), SrcText(inst.src));
    assert " " == [' '];
  }

  /** The mnemonic before the first space selects the operation; the rest is read as its operands. */
  lemma ReadsOperandMnemonic(op: Operation, rest: string)
    requires op.HasOperands()
    ensures InstructionFromText(Mnemonic(op) + [' '] + rest) == OperandsFromText(op, rest)
  {
    MnemonicShape(op);
    SplitAtFirst(Mnemonic(op), ' ', rest);
    MnemonicRoundTrip(op);
  }

  /** The mnemonic before the first space selects a jump; the rest is read as its target. */
  lemma ReadsJumpMnemonic(op: Operation, rest: string)
    requires !op.HasOperands()
    ensures InstructionFromText(Mnemonic(op) + [' '] + rest) == JumpFromText(op, rest)
  {
    MnemonicShape(op);
    SplitAtFirst(Mnemonic(op), ' ', rest);
    MnemonicRoundTrip(op);
  }

  /** A printed jump target reads back as the offset byte whose display it is. */
  lemma JumpTargetRoundTrip(op: Operation, n: int)
    requires -128 <= n < 128
    ensures JumpFromText(op, JumpTargetText(n)) == Some(Instruction(op, UnusedDest, UnusedSrc, (n - 2) % 256))
  {
    var t := JumpTargetText(n);
    var k := if n >= 0 then n else -n;
    assert t[2..] == NatText(k);
    NumeralRoundTrip(k);
  }

  /** A printed jump target reads back as the offset byte it was printed from. */
  lemma JumpTargetReadsBack(op: Operation, offset: Byte)
    ensures JumpFromText(op, JumpTargetText(JumpDisplayOffset(offset))) == Some(Instruction(op, UnusedDest, UnusedSrc, offset))
  {
    JumpTargetRoundTrip(op, JumpDisplayOffset(offset));
    JumpDisplayOffsetInverse(offset);
  }

  /** A jump's mnemonic and printed target read back as the jump with that offset byte. */
  lemma JumpReadsBack(op: Operation, offset: Byte)
    requires !op.HasOperands()
    ensures InstructionFromText(Mnemonic(op) + [' '] + JumpTargetText(JumpDisplayOffset(offset)))
      == Some(Instruction(op, UnusedDest, UnusedSrc, offset))
  {
    ReadsJumpMnemonic(op, JumpTargetText(JumpDisplayOffset(offset)));
    JumpTargetReadsBack(op, offset);
  }

  /** A jump's text reads back as the jump, given that its operands are the placeholders. */
  lemma JumpTextRoundTrip(inst: Instruction)
    requires !inst.op.HasOperands()
    requires inst.dest == UnusedDest && inst.src == UnusedSrc
    ensures InstructionFromText(InstructionText(inst)) == Some(inst)
  {
    JumpText(inst);
    JumpReadsBack(inst.op, inst.jmpOffset);
  }

  /** The source text after `, `, keyword included, reads back as the source of an encodable instruction. */
  lemma SourceTextRoundTrip(inst: Instruction)
    requires inst.op.HasOperands() && Encodable(inst)
    ensures SourceFromText(inst.dest, SizeKeyword(inst) + SrcText(inst.src)) == Some(inst.src)
  {
    var k := SizeKeyword(inst);
    var t := k + SrcText(inst.src);
    if k == "word " {
      assert t[..5] == "word " && t[5..] == SrcText(inst.src);
      SrcTextRoundTrip(inst.src, true);
    } else if k == "byte " {
      assert t[..5] == "byte " && t[5..] == SrcText(inst.src);
      SrcTextRoundTrip(inst.src, false);
    } else {
      assert t == SrcText(inst.src);
      SrcTextShape(inst.src);
      SrcTextRoundTrip(inst.src, inst.dest.Reg? && inst.dest.reg.IsWide());
    }
  }

  /** `d, t` reads back as the operands d and t read back as, when d has no comma. */
  lemma ReadsOperands(op: Operation, d: string, t: string, dest: RegOrMem, src: Src)
    requires ',' !in d
    requires RegOrMemFromText(d) == Some(dest)
    requires SourceFromText(dest, t) == Some(src)
    ensures OperandsFromText(op, d + ", " + t) == Some(Instruction(op, dest, src, UnusedOffset))
  {
    assert d + ", " + t == d + [','] + (" " + t);
    SplitAtFirst(d, ',', " " + t);
    assert (" " + t)[1..] == t;
  }

  /** The operand part of MOV/ADD/SUB/CMP text reads back as the operands. */
  lemma OperandsTextRoundTrip(inst: Instruction)
    requires inst.op.HasOperands() && Encodable(inst)
    ensures OperandsFromText(inst.op, RegOrMemText(inst.dest) + ", " + SizeKeyword(inst) + SrcText(inst.src)) == Some(inst)
  {
    var d := RegOrMemText(inst.dest);
    var t := SizeKeyword(inst) + SrcText(inst.src);
    assert d + ", " + SizeKeyword(inst) + SrcText(inst.src) == d + ", " + t;
    RegOrMemTextShape(inst.dest);
    RegOrMemTextRoundTrip(inst.dest);
    SourceTextRoundTrip(inst);
    ReadsOperands(inst.op, d, t, inst.dest, inst.src);
  }

  /** MOV/ADD/SUB/CMP text reads back as the instruction. */
  lemma OperandInstructionTextRoundTrip(inst: Instruction)
    requires inst.op.HasOperands() && Encodable(inst)
    ensures InstructionFromText(InstructionText(inst)) == Some(inst)
  {
    OperandText(inst);
    ReadsOperandMnemonic(inst.op, RegOrMemText(inst.dest) + ", " + SizeKeyword(inst) + SrcText(inst.src));
    OperandsTextRoundTrip(inst);
  }

  /** The text of every encodable instruction reads back as that instruction. */
  lemma InstructionTextRoundTrip(inst: Instruction)
    requires Encodable(inst)
    ensures InstructionFromText(InstructionText(inst)) == Some(inst)
  {
    if inst.op.HasOperands() {
      OperandInstructionTextRoundTrip(inst);
    } else {
      JumpTextRoundTrip(inst);
    }
  }

  /** Encodable instructions have the same text exactly when they are the same instruction. */
  lemma InstructionTextInjective(a: Instruction, b: Instruction)
    requires Encodable(a) && Encodable(b)
    ensures InstructionText(a) == InstructionText(b) <==> a == b
  {
    InstructionTextRoundTrip(a);
    InstructionTextRoundTrip(b);
  }

  /** The text of every decoded instruction reads back as the decoded instruction. */
  lemma DecodedTextRoundTrip(f: Fidelity, m: Mem, at: Word)
    ensures var r := DecodeInstruction(f, m, at);
      r.Ok? ==> InstructionFromText(InstructionText(r.inst)) == Some(r.inst)
  {
    DecodedIsEncodable(f, m, at);
    var r := DecodeInstruction(f, m, at);
    if r.Ok? {
      InstructionTextRoundTrip(r.inst);
    }
  }

  // ---------------------------------------------------------------------------
  // Worked examples: bytes at `at`, the instruction decoded, its text
  // ---------------------------------------------------------------------------

  /** The encoder's bytes for `Instruction(Mov, Reg(CX), SrcReg(BX), UnusedOffset)`. */
  lemma EncodingMovCxBx()
    ensures Encodable(Instruction(Mov, Reg(CX), SrcReg(BX), UnusedOffset)) && Encode(Instruction(Mov, Reg(CX), SrcReg(BX), UnusedOffset)) == [0x89, 0xD9]
  {
  }

  /** 89 D9 decodes as MOV CX, BX: d = 0, so the r/m operand is the destination. */
  lemma DecodeMovCxBx(f: Fidelity, m: Mem, at: Word)
    requires m[at] == 0x89 && m[Advance(at, 1)] == 0xD9
    ensures DecodeInstruction(f, m, at) == Ok(Instruction(Mov, Reg(CX), SrcReg(BX), UnusedOffset), Advance(at, 2))
  {
    var bytes := [0x89, 0xD9];
    assert Placed(m, at, bytes) by {
      forall i | 0 <= i < 2 ensures m[Advance(at, i)] == bytes[i] {
        if i == 0 {
          assert Advance(at, 0) == at;
        }
      }
    }
    EncodingMovCxBx();
    EncodeRoundTrip(f, m, at, Instruction(Mov, Reg(CX), SrcReg(BX), UnusedOffset));
  }

  lemma MovCxBxText()
    ensures InstructionText(Instruction(Mov, Reg(CX), SrcReg(BX), UnusedOffset)) == "mov cx, bx"
  {
    var inst := Instruction(Mov, Reg(CX), SrcReg(BX), UnusedOffset);
    OperandText(inst);
    assert RegisterName(CX) == "cx" && RegisterName(BX) == "bx" && Mnemonic(Mov) == "mov";
    assert SizeKeyword(inst) == "";
  }

  /** 89 D9: MOV register to register, rendered `mov cx, bx`. */
  lemma ExampleMovRegisterToRegister(f: Fidelity, m: Mem, at: Word)
    requires m[at] == 0x89 && m[Advance(at, 1)] == 0xD9
    ensures var r := DecodeInstruction(f, m, at);
      && r == Ok(Instruction(Mov, Reg(CX), SrcReg(BX), UnusedOffset), Advance(at, 2))
      && InstructionText(r.inst) == "mov cx, bx"
  {
    DecodeMovCxBx(f, m, at);
    MovCxBxText();
  }

  /** The encoder's bytes for `Instruction(Mov, Reg(AX), Imm16(5), UnusedOffset)`. */
  lemma EncodingMovAxFive()
    ensures Encodable(Instruction(Mov, Reg(AX), Imm16(5), UnusedOffset)) && Encode(Instruction(Mov, Reg(AX), Imm16(5), UnusedOffset)) == [0xB8, 0x05, 0x00]
  {
  }

  /** B8 05 00 decodes as MOV AX with the little-endian 16-bit immediate 5. */
  lemma DecodeMovAxFive(f: Fidelity, m: Mem, at: Word)
    requires m[at] == 0xB8 && m[Advance(at, 1)] == 0x05 && m[Advance(at, 2)] == 0x00
    ensures DecodeInstruction(f, m, at) == Ok(Instruction(Mov, Reg(AX), Imm16(5), UnusedOffset), Advance(at, 3))
  {
    var bytes := [0xB8, 0x05, 0x00];
    assert Placed(m, at, bytes) by {
      forall i | 0 <= i < 3 ensures m[Advance(at, i)] == bytes[i] {
        if i == 0 {
          assert Advance(at, 0) == at;
        }
      }
    }
    EncodingMovAxFive();
    EncodeRoundTrip(f, m, at, Instruction(Mov, Reg(AX), Imm16(5), UnusedOffset));
  }

  lemma MovAxFiveText()
    ensures InstructionText(Instruction(Mov, Reg(AX), Imm16(5), UnusedOffset)) == "mov ax, 5"
  {
    var inst := Instruction(Mov, Reg(AX), Imm16(5), UnusedOffset);
    OperandText(inst);
    assert RegisterName(AX) == "ax" && Mnemonic(Mov) == "mov";
    assert SizeKeyword(inst) == "";
    assert SrcText(Imm16(5)) == "5";
  }

  /** B8 05 00: MOV immediate to register, rendered `mov ax, 5`. */
  lemma ExampleMovImmediateToRegister(f: Fidelity, m: Mem, at: Word)
    requires m[at] == 0xB8 && m[Advance(at, 1)] == 0x05 && m[Advance(at, 2)] == 0x00
    ensures var r := DecodeInstruction(f, m, at);
      && r == Ok(Instruction(Mov, Reg(AX), Imm16(5), UnusedOffset), Advance(at, 3))
      && InstructionText(r.inst) == "mov ax, 5"
  {
    DecodeMovAxFive(f, m, at);
    MovAxFiveText();
  }

  /** The encoder's bytes for `Instruction(Mov, Mem(MemOperand(DirectAddress, 0)), Imm8(7), UnusedOffset)`. */
  lemma EncodingMovByteSeven()
    ensures Encodable(Instruction(Mov, Mem(MemOperand(DirectAddress, 0)), Imm8(7), UnusedOffset)) && Encode(Instruction(Mov, Mem(MemOperand(DirectAddress, 0)), Imm8(7), UnusedOffset)) == [0xC6, 0x06, 0x00, 0x00, 0x07]
  {
  }

  /** C6 06 00 00 07 decodes as MOV of the 8-bit immediate 7 to the direct address 0. */
  lemma DecodeMovByteSeven(f: Fidelity, m: Mem, at: Word)
    requires m[at] == 0xC6 && m[Advance(at, 1)] == 0x06
    requires m[Advance(at, 2)] == 0x00 && m[Advance(at, 3)] == 0x00 && m[Advance(at, 4)] == 0x07
    ensures DecodeInstruction(f, m, at)
      == Ok(Instruction(Mov, Mem(MemOperand(DirectAddress, 0)), Imm8(7), UnusedOffset), Advance(at, 5))
  {
    var bytes := [0xC6, 0x06, 0x00, 0x00, 0x07];
    assert Placed(m, at, bytes) by {
      forall i | 0 <= i < 5 ensures m[Advance(at, i)] == bytes[i] {
        if i == 0 {
          assert Advance(at, 0) == at;
        }
      }
    }
    EncodingMovByteSeven();
    EncodeRoundTrip(f, m, at, Instruction(Mov, Mem(MemOperand(DirectAddress, 0)), Imm8(7), UnusedOffset));
  }

  /** The size keyword goes before the source, as `instruction_to_str` prints it. */
  lemma MovByteSevenText()
    ensures InstructionText(Instruction(Mov, Mem(MemOperand(DirectAddress, 0)), Imm8(7), UnusedOffset)) == "mov [0], byte 7"
  {
    var inst := Instruction(Mov, Mem(MemOperand(DirectAddress, 0)), Imm8(7), UnusedOffset);
    OperandText(inst);
    assert MemText(MemOperand(DirectAddress, 0)) == "[0]" by {
      assert NatText(0) == "0";
    }
    assert Mnemonic(Mov) == "mov";
    assert SizeKeyword(inst) == "byte ";
    assert SrcText(Imm8(7)) == "7";
  }

  /** C6 06 00 00 07: MOV immediate to memory, rendered `mov [0], byte 7`. */
  lemma ExampleMovByteToMemory(f: Fidelity, m: Mem, at: Word)
    requires m[at] == 0xC6 && m[Advance(at, 1)] == 0x06
    requires m[Advance(at, 2)] == 0x00 && m[Advance(at, 3)] == 0x00 && m[Advance(at, 4)] == 0x07
    ensures var r := DecodeInstruction(f, m, at);
      && r == Ok(Instruction(Mov, Mem(MemOperand(DirectAddress, 0)), Imm8(7), UnusedOffset), Advance(at, 5))
      && InstructionText(r.inst) == "mov [0], byte 7"
  {
    DecodeMovByteSeven(f, m, at);
    MovByteSevenText();
  }

  /** The encoder's bytes for `Instruction(Jne, UnusedDest, UnusedSrc, 0xFC)`. */
  lemma EncodingJneBackward()
    ensures Encodable(Instruction(Jne, UnusedDest, UnusedSrc, 0xFC)) && Encode(Instruction(Jne, UnusedDest, UnusedSrc, 0xFC)) == [0x75, 0xFC]
  {
  }

  /** 75 FC decodes as JNE with offset byte FC. */
  lemma DecodeJneBackward(f: Fidelity, m: Mem, at: Word)
    requires m[at] == 0x75 && m[Advance(at, 1)] == 0xFC
    ensures DecodeInstruction(f, m, at) == Ok(Instruction(Jne, UnusedDest, UnusedSrc, 0xFC), Advance(at, 2))
  {
    var bytes := [0x75, 0xFC];
    assert Placed(m, at, bytes) by {
      forall i | 0 <= i < 2 ensures m[Advance(at, i)] == bytes[i] {
        if i == 0 {
          assert Advance(at, 0) == at;
        }
      }
    }
    EncodingJneBackward();
    EncodeRoundTrip(f, m, at, Instruction(Jne, UnusedDest, UnusedSrc, 0xFC));
  }

  /** JNE with offset byte FC prints its target as `$-2`: the offset plus two, relative to the instruction's start. */
  lemma JneBackwardText()
    ensures InstructionText(Instruction(Jne, UnusedDest, UnusedSrc, 0xFC)) == "jne $-2"
  {
    assert JumpDisplayOffset(0xFC) == -2;
    JumpText(Instruction(Jne, UnusedDest, UnusedSrc, 0xFC));
    assert JumpTargetText(-2) == "$-2" by {
      assert NatText(2) == "2";
    }
    assert Mnemonic(Jne) == "jne";
  }

  /** 75 FC: a conditional jump backwards, rendered `jne $-2`. */
  lemma ExampleJumpBackward(f: Fidelity, m: Mem, at: Word)
    requires m[at] == 0x75 && m[Advance(at, 1)] == 0xFC
    ensures var r := DecodeInstruction(f, m, at);
      && r == Ok(Instruction(Jne, UnusedDest, UnusedSrc, 0xFC), Advance(at, 2))
      && InstructionText(r.inst) == "jne $-2"
  {
    DecodeJneBackward(f, m, at);
    JneBackwardText();
  }

  /** The encoder's bytes for `Instruction(Mov, Reg(AX), SrcMem(MemOperand(BpOnly, 0xFFFE)), UnusedOffset)`. */
  lemma EncodingMovAxBpMinusTwo()
    ensures Encodable(Instruction(Mov, Reg(AX), SrcMem(MemOperand(BpOnly, 0xFFFE)), UnusedOffset)) && Encode(Instruction(Mov, Reg(AX), SrcMem(MemOperand(BpOnly, 0xFFFE)), UnusedOffset)) == [0x8B, 0x46, 0xFE]
  {
  }

  /** 8B 46 FE decodes as MOV AX from [bp] with displacement FE sign-extended to FFFE. */
  lemma DecodeMovAxBpMinusTwo(f: Fidelity, m: Mem, at: Word)
    requires m[at] == 0x8B && m[Advance(at, 1)] == 0x46 && m[Advance(at, 2)] == 0xFE
    ensures DecodeInstruction(f, m, at)
      == Ok(Instruction(Mov, Reg(AX), SrcMem(MemOperand(BpOnly, 0xFFFE)), UnusedOffset), Advance(at, 3))
  {
    var bytes := [0x8B, 0x46, 0xFE];
    assert Placed(m, at, bytes) by {
      forall i | 0 <= i < 3 ensures m[Advance(at, i)] == bytes[i] {
        if i == 0 {
          assert Advance(at, 0) == at;
        }
      }
    }
    EncodingMovAxBpMinusTwo();
    EncodeRoundTrip(f, m, at, Instruction(Mov, Reg(AX), SrcMem(MemOperand(BpOnly, 0xFFFE)), UnusedOffset));
  }

  /** A negative displacement prints as a minus and its magnitude. */
  lemma BpMinusTwoText()
    ensures MemText(MemOperand(BpOnly, 0xFFFE)) == "[bp - 2]"
  {
    var mem := MemOperand(BpOnly, 0xFFFE);
    assert mem.Displacement() == -2;
    assert MemBaseName(BpOnly) == "bp" && NatText(2) == "2";
    assert MemInnerText(mem) == "bp - 2";
  }

  lemma AxFromBpMinusTwoText()
    ensures RegOrMemText(Reg(AX)) + ", " + SizeKeyword(Instruction(Mov, Reg(AX), SrcMem(MemOperand(BpOnly, 0xFFFE)), UnusedOffset))
      + SrcText(SrcMem(MemOperand(BpOnly, 0xFFFE))) == "ax, [bp - 2]"
  {
    assert RegisterName(AX) == "ax";
    BpMinusTwoText();
  }

  lemma MovAxBpMinusTwoText()
    ensures InstructionText(Instruction(Mov, Reg(AX), SrcMem(MemOperand(BpOnly, 0xFFFE)), UnusedOffset)) == "mov ax, [bp - 2]"
  {
    var inst := Instruction(Mov, Reg(AX), SrcMem(MemOperand(BpOnly, 0xFFFE)), UnusedOffset);
    OperandText(inst);
    AxFromBpMinusTwoText();
    assert Mnemonic(Mov) == "mov";
  }

  /** 8B 46 FE: MOV from memory with a negative displacement, rendered `mov ax, [bp - 2]`. */
  lemma ExampleMovFromNegativeDisplacement(f: Fidelity, m: Mem, at: Word)
    requires m[at] == 0x8B && m[Advance(at, 1)] == 0x46 && m[Advance(at, 2)] == 0xFE
    ensures var r := DecodeInstruction(f, m, at);
      && r == Ok(Instruction(Mov, Reg(AX), SrcMem(MemOperand(BpOnly, 0xFFFE)), UnusedOffset), Advance(at, 3))
      && InstructionText(r.inst) == "mov ax, [bp - 2]"
  {
    DecodeMovAxBpMinusTwo(f, m, at);
    MovAxBpMinusTwoText();
  }
}
