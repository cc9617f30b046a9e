/**
 The assembly-text renderer: NASM-compatible text for a decoded instruction.
 Text is an unbounded string; the fixed-size buffers of the C code, and the
 truncation they could cause, have no counterpart here.
 */
module Renderer {
  import opened Isa

  // ---------------------------------------------------------------------------
  // Decimal numerals (the `%d` conversion)
  // ---------------------------------------------------------------------------

  predicate IsDigit(c: char) {
    '0' <= c <= '9'
  }

  predicate AllDigits(s: string) {
    forall i :: 0 <= i < |s| ==> IsDigit(s[i])
  }

  function DigitChar(d: nat): (c: char)
    requires d < 10
    ensures IsDigit(c)
    ensures DigitValue(c) == d
  {
    (48 + d) as char
  }

  function DigitValue(c: char): (d: nat)
    requires IsDigit(c)
    ensures d < 10
  {
    (c as int) - 48
  }

  /** The decimal numeral of n: digits only, and a leading zero only for 0 itself. */
  function NatText(n: nat): (s: string)
    ensures 1 <= |s|
    ensures AllDigits(s)
    ensures s[0] == '0' <==> n == 0
    decreases n
  {
    if n < 10 then [DigitChar(n)]
    else NatText(n / 10) + [DigitChar(n % 10)]
  }

  /** The value of a string of decimal digits, most significant first. */
  function DecimalValue(s: string): nat
    requires AllDigits(s)
  {
    if |s| == 0 then 0
    else 10 * DecimalValue(s[..|s| - 1]) + DigitValue(s[|s| - 1])
  }

  /** A signed decimal numeral: a minus sign before the magnitude of a negative number. */
  function IntText(i: int): (s: string)
    ensures 1 <= |s|
    ensures s[0] == '-' <==> i < 0
  {
    if i < 0 then "-" + NatText(-i) else NatText(i)
  }

  /** Reading a numeral back gives the number it was made from. */
  lemma {:induction false} NatTextRoundTrip(n: nat)
    ensures DecimalValue(NatText(n)) == n
    decreases n
  {
    var s := NatText(n);
    if n >= 10 {
      NatTextRoundTrip(n / 10);
      assert s[..|s| - 1] == NatText(n / 10);
    }
  }

  /** Different numbers have different numerals. */
  lemma NatTextInjective(a: nat, b: nat)
    ensures NatText(a) == NatText(b) <==> a == b
  {
    NatTextRoundTrip(a);
    NatTextRoundTrip(b);
  }

  /** The signed value of a numeral with an optional leading minus sign. */
  function SignedDecimalValue(s: string): (i: int)
    requires 1 <= |s|
    requires s[0] == '-' ==> AllDigits(s[1..])
    requires s[0] != '-' ==> AllDigits(s)
  {
    if s[0] == '-' then 0 - DecimalValue(s[1..]) else DecimalValue(s)
  }

  lemma IntTextRoundTrip(i: int)
    ensures var s := IntText(i);
      && (s[0] == '-' ==> AllDigits(s[1..]))
      && (s[0] != '-' ==> AllDigits(s))
      && SignedDecimalValue(s) == i
  {
    var s := IntText(i);
    if i < 0 {
      var t := NatText(-i);
      assert s == "-" + t;
      assert s[1..] == t;
      NatTextRoundTrip(-i);
    } else {
      NatTextRoundTrip(i);
    }
  }

  /** A numeral as `%d` prints a natural number: digits, and no leading zero unless it is "0". */
  predicate Canonical(s: string) {
    1 <= |s| && AllDigits(s) && (s[0] == '0' ==> |s| == 1)
  }

  /** The number a canonical numeral denotes, if `s` is one. */
  function NumeralValue(s: string): (r: Option<nat>)
    ensures r.Some? <==> Canonical(s)
    ensures r.Some? ==> NatText(r.value) == s
  {
    if Canonical(s) then
      CanonicalNatText(s);
      Some(DecimalValue(s))
    else None
  }

  /** A numeral's value is at least its leading digit. */
  lemma {:induction false} DecimalValueAtLeastLead(s: string)
    requires 1 <= |s| && AllDigits(s)
    ensures DecimalValue(s) >= DigitValue(s[0])
    decreases |s|
  {
    if |s| > 1 {
      DecimalValueAtLeastLead(s[..|s| - 1]);
    }
  }

  /** Printing the value of a canonical numeral gives the numeral back. */
  lemma {:induction false} CanonicalNatText(s: string)
    requires Canonical(s)
    ensures NatText(DecimalValue(s)) == s
    decreases |s|
  {
    var n := DecimalValue(s);
    if |s| == 1 {
      assert (48 + DigitValue(s[0])) as char == s[0];
    } else {
      var p := s[..|s| - 1];
      var c := s[|s| - 1];
      assert p[0] == s[0];
      CanonicalNatText(p);
      DecimalValueAtLeastLead(p);
      assert n / 10 == DecimalValue(p) && n % 10 == DigitValue(c);
      assert (48 + DigitValue(c)) as char == c;
      assert s == p + [c];
    }
  }

  /** Every printed number is a canonical numeral that reads back as the number. */
  lemma NumeralRoundTrip(n: nat)
    ensures NumeralValue(NatText(n)) == Some(n)
  {
    NatTextRoundTrip(n);
  }

  /** A character that is not a digit does not occur in a numeral. */
  lemma NoCharInDigits(s: string, c: char)
    requires AllDigits(s) && !IsDigit(c)
    ensures c !in s
  {
  }

  // ---------------------------------------------------------------------------
  // Names
  // ---------------------------------------------------------------------------

  /** The position of the first occurrence of `s` in `names`, if any. */
  function IndexOf(names: seq<string>, s: string): (r: Option<nat>)
    ensures r.Some? ==> r.value < |names| && names[r.value] == s
    ensures r.Some? ==> forall j :: 0 <= j < r.value ==> names[j] != s
    ensures r.None? <==> s !in names
  {
    if |names| == 0 then None
    else if names[0] == s then Some(0)
    else
      match IndexOf(names[1..], s)
      case None => None
      case Some(k) => Some(k + 1)
  }

  /** In a table without repeated entries, every entry is found at its own position. */
  lemma IndexOfDistinct(names: seq<string>, i: nat)
    requires i < |names|
    requires forall j, k :: 0 <= j < k < |names| ==> names[j] != names[k]
    ensures IndexOf(names, names[i]) == Some(i)
  {
  }

  /** Register names in ordinal order (Table 4-9). */
  const RegisterNames: seq<string> :=
    ["al", "cl", "dl", "bl", "ah", "ch", "dh", "bh",
     "ax", "cx", "dx", "bx", "sp", "bp", "si", "di"]

  /** Mnemonics in operation-ordinal order. */
  const Mnemonics: seq<string> :=
    ["mov", "add", "sub", "cmp", "je", "jl", "jle", "jb", "jbe", "jp", "jo",
     "js", "jne", "jnl", "jnle", "jnb", "jnbe", "jnp", "jno", "jns", "loop",
     "loopz", "loopnz", "jcxz"]

  /** Base-register text for the eight register-relative bases (Table 4-10). */
  const MemBaseNames: seq<string> :=
    ["bx + si", "bx + di", "bp + si", "bp + di", "si", "di", "bp", "bx"]

  /** `reg_to_str` */
  function RegisterName(r: Register): string
  {
    RegisterNames[r.Ordinal()]
  }

  /** `operation_to_str` */
  function Mnemonic(op: Operation): string
  {
    Mnemonics[op.Ordinal()]
  }

  function MemBaseName(b: MemBase): string
    requires !b.DirectAddress?
  {
    MemBaseNames[b.Ordinal()]
  }

  /** The register a name denotes, if any. */
  function RegisterFromName(s: string): (r: Option<Register>)
    ensures r.Some? ==> RegisterName(r.value) == s
  {
    match IndexOf(RegisterNames, s)
    case None => None
    case Some(i) => Some(RegisterFromOrdinal(i))
  }

  /** The operation a mnemonic denotes, if any. */
  function OperationFromMnemonic(s: string): (op: Option<Operation>)
    ensures op.Some? ==> Mnemonic(op.value) == s
  {
    match IndexOf(Mnemonics, s)
    case None => None
    case Some(i) => Some(OperationFromOrdinal(i))
  }

  /** Every register is named, and its name denotes it and no other register. */
  lemma RegisterNameRoundTrip(r: Register)
    ensures RegisterFromName(RegisterName(r)) == Some(r)
  {
    IndexOfDistinct(RegisterNames, r.Ordinal());
    RegisterOrdinalBijective(r, r.Ordinal());
  }

  /** Every mnemonic denotes its own operation and no other. */
  lemma MnemonicRoundTrip(op: Operation)
    ensures OperationFromMnemonic(Mnemonic(op)) == Some(op)
  {
    IndexOfDistinct(Mnemonics, op.Ordinal());
    OperationOrdinalBijective(op, op.Ordinal());
  }

  /** Mnemonics are nonempty and hold no space. */
  lemma MnemonicShape(op: Operation)
    ensures 1 <= |Mnemonic(op)| && ' ' !in Mnemonic(op)
  {
    assert forall i | 0 <= i < |Mnemonics| :: 1 <= |Mnemonics[i]| && ' ' !in Mnemonics[i];
  }

  // ---------------------------------------------------------------------------
  // Operands
  // ---------------------------------------------------------------------------

  /**
   `mem_to_str`: a direct address as its unsigned value, otherwise the base
   with the signed displacement written as `+ d` or `- |d|`, or left out when 0.
   */
  function MemText(mem: MemOperand): (t: string)
    ensures 3 <= |t| && t[0] == '[' && t[|t| - 1] == ']'
    ensures t[1..|t| - 1] == MemInnerText(mem)
  {
    "[" + MemInnerText(mem) + "]"
  }

  /** The text between the brackets. */
  function MemInnerText(mem: MemOperand): (t: string)
    ensures 1 <= |t|
  {
    if mem.base.DirectAddress? then NatText(mem.Address())
    else if mem.Displacement() > 0 then MemBaseName(mem.base) + " + " + NatText(mem.Displacement())
    else if mem.Displacement() < 0 then MemBaseName(mem.base) + " - " + NatText(-mem.Displacement())
    else MemBaseName(mem.base)
  }

  // ---------------------------------------------------------------------------
  // Reading memory operands back
  // ---------------------------------------------------------------------------

  /** The position of the last space in `s`, if any. */
  function LastSpace(s: string): (r: Option<nat>)
    ensures r.Some? ==> r.value < |s| && s[r.value] == ' '
    decreases |s|
  {
    if |s| == 0 then None
    else if s[|s| - 1] == ' ' then Some(|s| - 1)
    else LastSpace(s[..|s| - 1])
  }

  /** Text with no space after a space ending `p` has its last space there. */
  lemma {:induction false} LastSpaceBefore(p: string, t: string)
    requires 1 <= |p| && p[|p| - 1] == ' ' && ' ' !in t
    ensures LastSpace(p + t) == Some(|p| - 1)
    decreases |t|
  {
    if |t| == 0 {
      assert p + t == p;
    } else {
      assert (p + t)[..|p + t| - 1] == p + t[..|t| - 1];
      assert (p + t)[|p + t| - 1] == t[|t| - 1];
      LastSpaceBefore(p, t[..|t| - 1]);
    }
  }

  /**
   Splits `base + d` or `base - d`, with d a nonzero numeral, into the base
   text and the signed displacement; None when the text does not end so.
   */
  function SplitDisplacement(t: string): (r: Option<(string, int)>)
    ensures r.Some? ==> r.value.1 != 0
  {
    match LastSpace(t)
    case None => None
    case Some(k) =>
      if k < 2 || t[k - 2] != ' ' || (t[k - 1] != '+' && t[k - 1] != '-') then None
      else
        match NumeralValue(t[k + 1..])
        case None => None
        case Some(n) =>
          if n == 0 then None
          else Some((t[..k - 2], if t[k - 1] == '+' then n as int else 0 - n))
  }

  /** The register-relative base a name denotes, if any. */
  function BaseFromName(s: string): (r: Option<MemBase>)
    ensures r.Some? ==> !r.value.DirectAddress? && MemBaseName(r.value) == s
  {
    match IndexOf(MemBaseNames, s)
    case None => None
    case Some(i) =>
      var b := MemBaseFromOrdinal(i);
      MemBaseOrdinalBijective(b, i);
      Some(b)
  }

  /** Reads back the text between the brackets of a memory operand. */
  function MemInnerFromText(t: string): Option<MemOperand>
  {
    match NumeralValue(t)
    case Some(a) => if a < MemorySize then Some(MemOperand(DirectAddress, a)) else None
    case None =>
      match SplitDisplacement(t)
      case Some((b, d)) =>
        (match BaseFromName(b)
         case None => None
         case Some(base) => if -32768 <= d < 32768 then Some(MemOperand(base, d % MemorySize)) else None)
      case None =>
        match BaseFromName(t)
        case None => None
        case Some(base) => Some(MemOperand(base, 0))
  }

  /** Reads back a memory operand's text. */
  function MemFromText(s: string): Option<MemOperand>
  {
    if 2 <= |s| && s[0] == '[' && s[|s| - 1] == ']' then MemInnerFromText(s[1..|s| - 1]) else None
  }

  /** Text that does not end in a digit does not end in a signed numeral. */
  lemma SplitDisplacementNeedsDigit(t: string)
    requires 1 <= |t| && !IsDigit(t[|t| - 1])
    ensures SplitDisplacement(t).None?
  {
    match LastSpace(t)
    case None =>
    case Some(k) =>
      var tail := t[k + 1..];
      if 1 <= |tail| {
        assert tail[|tail| - 1] == t[|t| - 1];
      }
  }

  /** `b + n` or `b - n` with n a positive numeral splits into b and the signed n. */
  lemma SplitSigned(b: string, negative: bool, n: nat)
    requires 1 <= n
    ensures var t := b + " " + [if negative then '-' else '+'] + " " + NatText(n);
      SplitDisplacement(t) == Some((b, if negative then 0 - n else n as int))
  {
    var p := b + " " + [if negative then '-' else '+'] + " ";
    var t := p + NatText(n);
    assert b + " " + [if negative then '-' else '+'] + " " + NatText(n) == t;
    NoCharInDigits(NatText(n), ' ');
    LastSpaceBefore(p, NatText(n));
    var k := |p| - 1;
    assert t[k + 1..] == NatText(n);
    assert t[..k - 2] == b;
    NumeralRoundTrip(n);
  }

  /**
   Each base name starts with a letter, holds no comma, does not end in a
   signed numeral, and denotes its own base.
   */
  lemma BaseNameFacts(b: MemBase)
    requires !b.DirectAddress?
    ensures var s := MemBaseName(b);
      && 1 <= |s| && 'a' <= s[0] <= 'z' && ',' !in s
      && SplitDisplacement(s).None?
      && BaseFromName(s) == Some(b)
  {
    var s := MemBaseName(b);
    BaseNameShape(b);
    assert SplitDisplacement(s).None? by {
      BaseNameShape(b);
      SplitDisplacementNeedsDigit(s);
    }
    BaseNameReadsBack(b);
  }

  /** A base's name reads back as that base. */
  lemma BaseNameReadsBack(b: MemBase)
    requires !b.DirectAddress?
    ensures BaseFromName(MemBaseName(b)) == Some(b)
  {
    var i := b.Ordinal();
    MemBaseOrdinalBijective(b, i);
    IndexOfDistinct(MemBaseNames, i);
  }

  /** Base names are letters, spaces and `+`, starting and ending with a letter. */
  lemma BaseNameShape(b: MemBase)
    requires !b.DirectAddress?
    ensures var s := MemBaseName(b);
      && 1 <= |s| && 'a' <= s[0] <= 'z' && 'a' <= s[|s| - 1] <= 'z' && ',' !in s
      && forall j :: 0 <= j < |s| ==> ('a' <= s[j] <= 'z' || s[j] == ' ' || s[j] == '+')
  {
    match b
    case BxSi => assert MemBaseName(b) == "bx + si";
    case BxDi => assert MemBaseName(b) == "bx + di";
    case BpSi => assert MemBaseName(b) == "bp + si";
    case BpDi => assert MemBaseName(b) == "bp + di";
    case SiOnly => assert MemBaseName(b) == "si";
    case DiOnly => assert MemBaseName(b) == "di";
    case BpOnly => assert MemBaseName(b) == "bp";
    case BxOnly => assert MemBaseName(b) == "bx";
  }

  /**
   The text of a register-relative operand shows its base, and its signed
   displacement (with `-` exactly for a negative one) exactly when that is
   nonzero.
   */
  lemma MemTextDisplacement(mem: MemOperand)
    requires !mem.base.DirectAddress?
    ensures var t := MemInnerText(mem);
      && NumeralValue(t).None?
      && SplitDisplacement(t) == (if mem.Displacement() == 0 then None else Some((MemBaseName(mem.base), mem.Displacement())))
  {
    var t := MemInnerText(mem);
    var b := MemBaseName(mem.base);
    var d := mem.Displacement();
    MemInnerTextParts(mem);
    if d == 0 {
      assert SplitDisplacement(b).None? by {
        BaseNameFacts(mem.base);
      }
    } else if d > 0 {
      assert SplitDisplacement(t) == Some((b, d)) by {
        SplitSigned(b, false, d);
      }
    } else {
      assert SplitDisplacement(t) == Some((b, d)) by {
        SplitSigned(b, true, -d);
      }
    }
  }

  /**
   After the base name comes nothing exactly when the displacement is 0;
   otherwise ` - ` exactly when it is negative and ` + ` when positive,
   then the numeral of its magnitude.
   */
  lemma MemTextSign(mem: MemOperand)
    requires !mem.base.DirectAddress?
    ensures var t := MemInnerText(mem);
      var b := MemBaseName(mem.base);
      var d := mem.Displacement();
      && (|t| == |b| <==> d == 0)
      && (d != 0 ==> |b| + 3 < |t| && t[|b|..|b| + 3] == [' ', if d < 0 then '-' else '+', ' ']
                     && t[|b| + 3..] == NatText(if d < 0 then -d else d))
  {
    var t := MemInnerText(mem);
    var b := MemBaseName(mem.base);
    var d := mem.Displacement();
    MemInnerTextParts(mem);
    if d != 0 {
      var sign := if d < 0 then '-' else '+';
      var digits := NatText(if d < 0 then -d else d);
      assert t == b + " " + [sign] + " " + digits;
      assert t[|b|..|b| + 3] == [' ', sign, ' '];
      assert t[|b| + 3..] == digits;
    }
  }

  /** The inner text of a based operand: the base, then ` + d` or ` - |d|` when the displacement is not zero. */
  lemma MemInnerTextParts(mem: MemOperand)
    requires !mem.base.DirectAddress?
    ensures var t := MemInnerText(mem);
      var b := MemBaseName(mem.base);
      var d := mem.Displacement();
      && NumeralValue(t).None?
      && (d == 0 ==> t == b)
      && (d > 0 ==> t == b + " " + ['+'] + " " + NatText(d))
      && (d < 0 ==> t == b + " " + ['-'] + " " + NatText(-d))
  {
    var t := MemInnerText(mem);
    var b := MemBaseName(mem.base);
    BaseNameShape(mem.base);
    assert t[0] == b[0];
  }

  /** A memory operand's text reads back as the operand. */
  lemma MemTextRoundTrip(mem: MemOperand)
    ensures MemFromText(MemText(mem)) == Some(mem)
  {
    var t := MemInnerText(mem);
    if mem.base.DirectAddress? {
      NumeralRoundTrip(mem.disp);
    } else {
      MemTextDisplacement(mem);
      BaseNameFacts(mem.base);
    }
  }

  /** `reg_or_mem_to_str` */
  function RegOrMemText(v: RegOrMem): string
  {
    match v
    case Reg(r) => RegisterName(r)
    case Mem(mem) => MemText(mem)
  }

  /** `src_to_str`: an 8-bit immediate prints its low byte, a 16-bit one its unsigned value. */
  function SrcText(s: Src): string
  {
    match s
    case SrcReg(r) => RegisterName(r)
    case SrcMem(mem) => MemText(mem)
    case Imm16(v) => NatText(v)
    case Imm8(v) => NatText(v % 256)
  }

  // ---------------------------------------------------------------------------
  // Reading operands back
  // ---------------------------------------------------------------------------

  /** Register names are two lower-case letters. */
  lemma RegisterNameShape(r: Register)
    ensures var s := RegisterName(r);
      |s| == 2 && 'a' <= s[0] <= 'z' && 'a' <= s[1] <= 'z'
  {
    match r
    case AL => assert RegisterName(r) == "al";
    case CL => assert RegisterName(r) == "cl";
    case DL => assert RegisterName(r) == "dl";
    case BL => assert RegisterName(r) == "bl";
    case AH => assert RegisterName(r) == "ah";
    case CH => assert RegisterName(r) == "ch";
    case DH => assert RegisterName(r) == "dh";
    case BH => assert RegisterName(r) == "bh";
    case AX => assert RegisterName(r) == "ax";
    case CX => assert RegisterName(r) == "cx";
    case DX => assert RegisterName(r) == "dx";
    case BX => assert RegisterName(r) == "bx";
    case SP => assert RegisterName(r) == "sp";
    case BP => assert RegisterName(r) == "bp";
    case SI => assert RegisterName(r) == "si";
    case DI => assert RegisterName(r) == "di";
  }

  /** Text that starts with neither a letter nor names a register does not denote a register. */
  lemma NotARegisterName(s: string)
    requires 1 <= |s| && !('a' <= s[0] <= 'z')
    ensures RegisterFromName(s).None?
  {
    if RegisterFromName(s).Some? {
      RegisterNameShape(RegisterFromName(s).value);
    }
  }

  /** Reads back a destination: a register name, else a memory operand. */
  function RegOrMemFromText(s: string): Option<RegOrMem>
  {
    match RegisterFromName(s)
    case Some(r) => Some(Reg(r))
    case None =>
      match MemFromText(s)
      case Some(mem) => Some(Mem(mem))
      case None => None
  }

  /** A destination's text reads back as the destination. */
  lemma RegOrMemTextRoundTrip(v: RegOrMem)
    ensures RegOrMemFromText(RegOrMemText(v)) == Some(v)
  {
    match v
    case Reg(r) => RegisterNameRoundTrip(r);
    case Mem(mem) =>
      NotARegisterName(MemText(mem));
      MemTextRoundTrip(mem);
  }

  /**
   Reads back a source: a register name, a memory operand, or a numeral,
   which is an immediate of the width `wide` gives.
   */
  function SrcFromText(s: string, wide: bool): Option<Src>
  {
    match RegisterFromName(s)
    case Some(r) => Some(SrcReg(r))
    case None =>
      match MemFromText(s)
      case Some(mem) => Some(SrcMem(mem))
      case None =>
        match NumeralValue(s)
        case None => None
        case Some(n) =>
          if wide then (if n < MemorySize then Some(Imm16(n)) else None)
          else (if n < 256 then Some(Imm8(n)) else None)
  }

  /**
   An immediate prints as a numeral: an 8-bit one reads back as its low
   byte, in 0..255, and a 16-bit one as its unsigned value.
   */
  lemma ImmediateText(src: Src)
    requires src.IsImmediate()
    ensures src.Imm8? ==> NumeralValue(SrcText(src)) == Some(src.imm % 256)
    ensures src.Imm16? ==> NumeralValue(SrcText(src)) == Some(src.imm)
  {
    if src.Imm8? {
      NumeralRoundTrip(src.imm % 256);
    } else {
      NumeralRoundTrip(src.imm);
    }
  }

  /** A source's text reads back as the source, an immediate at the width it was tagged with. */
  lemma SrcTextRoundTrip(src: Src, wide: bool)
    requires src.Imm16? ==> wide
    requires src.Imm8? ==> !wide && src.imm < 256
    ensures SrcFromText(SrcText(src), wide) == Some(src)
  {
    match src
    case SrcReg(r) => RegisterNameRoundTrip(r);
    case SrcMem(mem) =>
      NotARegisterName(MemText(mem));
      MemTextRoundTrip(mem);
    case Imm16(v) =>
      NotARegisterName(NatText(v));
      ImmediateText(src);
    case Imm8(v) =>
      NotARegisterName(NatText(v % 256));
      ImmediateText(src);
  }

  /** Destination text holds no comma. */
  lemma RegOrMemTextShape(v: RegOrMem)
    ensures ',' !in RegOrMemText(v)
  {
    match v
    case Reg(r) => RegisterNameShape(r);
    case Mem(mem) => MemTextShape(mem);
  }

  /** Source text never starts with a size keyword: it starts with a register name, a bracket or a digit. */
  lemma SrcTextShape(src: Src)
    ensures var t := SrcText(src);
      1 <= |t| && !(5 <= |t| && (t[..5] == "word " || t[..5] == "byte "))
  {
    var t := SrcText(src);
    match src
    case SrcReg(r) => RegisterNameShape(r);
    case SrcMem(mem) =>
      if 5 <= |t| {
        assert t[..5][0] == '[';
      }
    case Imm16(n) =>
      if 5 <= |t| {
        assert IsDigit(t[..5][0]);
      }
    case Imm8(n) =>
      if 5 <= |t| {
        assert IsDigit(t[..5][0]);
      }
  }

  /** Memory-operand text holds no comma. */
  lemma MemTextShape(mem: MemOperand)
    ensures ',' !in MemText(mem)
  {
    var inner := MemInnerText(mem);
    if mem.base.DirectAddress? {
      NoCharInDigits(NatText(mem.Address()), ',');
    } else {
      var d := mem.Displacement();
      MemInnerTextParts(mem);
      BaseNameShape(mem.base);
      NoCharInDigits(NatText(if d < 0 then -d else d), ',');
    }
    assert ',' !in inner;
    assert MemText(mem) == "[" + inner + "]";
  }

  // ---------------------------------------------------------------------------
  // Instructions
  // ---------------------------------------------------------------------------

  /**
   The size keyword NASM needs before an immediate stored to memory, where
   neither operand tells the width.
   */
  function SizeKeyword(inst: Instruction): (k: string)
    ensures k == "word " <==> inst.dest.Mem? && inst.src.Imm16?
    ensures k == "byte " <==> inst.dest.Mem? && inst.src.Imm8?
    ensures k == "" <==> !(inst.dest.Mem? && inst.src.IsImmediate())
  {
    if inst.dest.Mem? && inst.src.Imm16? then "word "
    else if inst.dest.Mem? && inst.src.Imm8? then "byte "
    else ""
  }

  /**
   The `$`-relative target a jump prints: the offset counts from the end of
   the two-byte instruction, `$` is its start, and the sum is narrowed to i8.
   */
  function JumpDisplayOffset(offset: Byte): (n: int)
    ensures -128 <= n < 128
    ensures n % 256 == (offset + 2) % 256
  {
    AsSigned8((offset + 2) % 256)
  }

  /** `instruction_to_str` */
  function InstructionText(inst: Instruction): string
  {
    if inst.op.HasOperands() then
      Mnemonic(inst.op) + " " + RegOrMemText(inst.dest) + ", " + SizeKeyword(inst) + SrcText(inst.src)
    else
      var n := JumpDisplayOffset(inst.jmpOffset);
      if n >= 0 then Mnemonic(inst.op) + " $+" + NatText(n)
      else Mnemonic(inst.op) + " $" + IntText(n)
  }

  // ---------------------------------------------------------------------------
  // Properties
  // ---------------------------------------------------------------------------

  /** The jump text shows the signed offset plus two, except that +126 and +127 wrap to -128 and -127. */
  lemma JumpDisplayOffsetWraps(offset: Byte)
    ensures AsSigned8(offset) < 126 ==> JumpDisplayOffset(offset) == AsSigned8(offset) + 2
    ensures offset == 126 ==> JumpDisplayOffset(offset) == -128
    ensures offset == 127 ==> JumpDisplayOffset(offset) == -127
  {
  }
}
