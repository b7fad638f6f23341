/** How the upper half of a register can and cannot influence the lower half, and
    what the 32-bit instructions leave in the upper half. */
module LowHalf {
  import opened Words
  import opened Isa
  import opened Machine

  // ---- Arithmetic modulo 2^32 ----

  lemma LowOfSum(x: int, q: int)
    ensures Low32(x + 0x1_0000_0000 * q) == Low32(x)
  {}

  lemma LowOfWrap(x: int)
    ensures Low32(Wrap64(x)) == Low32(x)
  {
    LowOfSum(Wrap64(x), 0x1_0000_0000 * (x / 0x1_0000_0000_0000_0000));
  }

  lemma LowOfProduct(x: int, y: int)
    ensures Low32(x * y) == Low32(Low32(x) * Low32(y))
  {
    LowOfFactor(x, y);
    LowOfFactor(y, Low32(x));
    assert Low32(y) * Low32(x) == Low32(x) * Low32(y);
    assert y * Low32(x) == Low32(x) * y;
  }

  lemma LowOfFactor(x: int, y: int)
    ensures Low32(x * y) == Low32(Low32(x) * y)
  {
    var q := x / 0x1_0000_0000;
    assert x == Low32(x) + 0x1_0000_0000 * q;
    assert x * y == Low32(x) * y + 0x1_0000_0000 * (q * y);
    LowOfSum(Low32(x) * y, q * y);
  }

  lemma LowOfBits(op: BitOperator, x: u64, y: u64)
    ensures Low32(Bits64(op, x, y)) == Bits32(op, Low32(x), Low32(y))
  {
    Pow2Words();
    BitwiseLow(op, x, y, 64, 32);
  }

  lemma LowOfNegation(x: u64)
    ensures Low32(Wrap64(-Signed64(x))) == Low32(-(Low32(x) as int))
  {
    LowOfWrap(-Signed64(x));
    var q := (x - Low32(x)) / 0x1_0000_0000;
    assert x == Low32(x) + 0x1_0000_0000 * q;
    LowOfSum(-(Low32(x) as int), if x < 0x8000_0000_0000_0000 then -q else 0x1_0000_0000 - q);
  }

  lemma ShiftAmount(y: u64)
    ensures y % 64 == Low32(y) % 64 && y % 32 == Low32(y) % 32
  {
    SameResidue(Low32(y), y / 0x1_0000_0000);
  }

  lemma SameResidue(l: nat, q: nat)
    ensures (l + 0x1_0000_0000 * q) % 64 == l % 64 && (l + 0x1_0000_0000 * q) % 32 == l % 32
  {
    QuotientIs(l + 0x1_0000_0000 * q, 64, l / 64 + 0x400_0000 * q, l % 64);
    QuotientIs(l + 0x1_0000_0000 * q, 32, l / 32 + 0x800_0000 * q, l % 32);
  }

  // ---- Which opcodes respect the low half ----

  predicate AgreeLow(r: AluResult, r': AluResult) {
    match r
    case Value(v) => r'.Value? && Low32(v) == Low32(r'.v)
    case _ => r == r'
  }

  predicate LowDetermined(checks: bool, op: u8) {
    && IsAlu(op)
    && op != 0x37 && op != 0x3F && op != 0x97 && op != 0x9F // 64-bit div, mod
    && op != 0x77 && op != 0x7F && op != 0xC7 && op != 0xCF // 64-bit right shifts
    && (op == 0x87 ==> !checks) // neg, which may panic
  }

  /** Operands that agree modulo 2^32 give results that do. */
  ghost predicate RespectsLow(checks: bool, op: u8)
    requires IsAlu(op)
  {
    forall x: u64, y: u64, x': u64, y': u64 | Low32(x) == Low32(x') && Low32(y) == Low32(y') ::
      AgreeLow(Alu(checks, op, x, y), Alu(checks, op, x', y'))
  }

  /** The 32-bit opcodes: they see the low halves only. */
  predicate Is32Bit(op: u8) { IsAlu(op) && op % 8 == 4 }

  lemma LowOfLow(x: int)
    ensures Low32(Low32(x)) == Low32(x)
    ensures 0 <= x < 0x1_0000_0000 ==> Low32(x) == x
  {}

  lemma Narrow(checks: bool, op: u8, x: u64, y: u64)
    requires Is32Bit(op)
    ensures Alu(checks, op, x, y) == Alu(checks, op, Low32(x), Low32(y))
  {
    hide Bits32, ShiftRight, Pow2, Quotient, Signed32, Low32;
    ShiftAmount(y);
    LowOfLow(x);
    LowOfLow(y);
  }

  /** The 64-bit opcodes that respect the low half, spelled out. */
  lemma WideForms(checks: bool, op: u8, x: u64, y: u64)
    requires LowDetermined(checks, op) && !Is32Bit(op)
    ensures Alu(checks, op, x, y) ==
            Value(if op == 0xB7 || op == 0xBF then y
                  else if op == 0x07 || op == 0x0F then Wrap64(x + y)
                  else if op == 0x17 || op == 0x1F then Wrap64(x - y)
                  else if op == 0x27 || op == 0x2F then Wrap64(x * y)
                  else if op == 0x67 || op == 0x6F then Wrap64(x * Pow2(y % 64))
                  else if op == 0x87 then Wrap64(-Signed64(x))
                  else Bits64(WideBitOperator(op), x, y))
  {
    hide Bitwise, Pow2;
  }

  function WideBitOperator(op: u8): BitOperator {
    if op == 0x47 || op == 0x4F then Or else if op == 0x57 || op == 0x5F then And else Xor
  }

  /** The low half of a wide result, from the low halves of the operands. */
  function WideLow(op: u8, a: u32, b: u32): u32 {
    if op == 0xB7 || op == 0xBF then b
    else if op == 0x07 || op == 0x0F then Low32(a + b)
    else if op == 0x17 || op == 0x1F then Low32(a - b)
    else if op == 0x27 || op == 0x2F then Low32(a * b)
    else if op == 0x67 || op == 0x6F then Low32(a * Low32(Pow2(b % 64)))
    else if op == 0x87 then Low32(-(a as int))
    else Bits32(WideBitOperator(op), a, b)
  }

  lemma Wide(checks: bool, op: u8, x: u64, y: u64)
    requires LowDetermined(checks, op) && !Is32Bit(op)
    ensures Alu(checks, op, x, y).Value? && Low32(Alu(checks, op, x, y).v) == WideLow(op, Low32(x), Low32(y))
  {
    hide Alu, Bits64, Bits32, Pow2, Wrap64, Signed64;
    WideForms(checks, op, x, y);
    WideSum(x, y);
    WideDifference(x, y);
    WideProduct(x, y);
    WideProduct(x, Pow2(y % 64));
    ShiftAmount(y);
    LowOfNegation(x);
    LowOfBits(WideBitOperator(op), x, y);
    hide Low32;
  }

  lemma WideSum(x: int, y: int)
    ensures Low32(Wrap64(x + y)) == Low32(Low32(x) + Low32(y))
  {
    LowOfWrap(x + y);
    LowOfSum(Low32(x) + Low32(y), x / 0x1_0000_0000 + y / 0x1_0000_0000);
  }

  lemma WideDifference(x: int, y: int)
    ensures Low32(Wrap64(x - y)) == Low32(Low32(x) - Low32(y))
  {
    LowOfWrap(x - y);
    LowOfSum(Low32(x) - Low32(y), x / 0x1_0000_0000 - y / 0x1_0000_0000);
  }

  lemma WideProduct(x: int, y: int)
    ensures Low32(Wrap64(x * y)) == Low32(Low32(x) * Low32(y))
  {
    LowOfWrap(x * y);
    LowOfProduct(x, y);
  }

  /** Exactly these opcodes keep agreement modulo 2^32. */
  lemma RespectsLowIff(checks: bool, op: u8)
    requires IsAlu(op)
    ensures RespectsLow(checks, op) <==> LowDetermined(checks, op)
  {
    if LowDetermined(checks, op) {
      forall x: u64, y: u64, x': u64, y': u64 | Low32(x) == Low32(x') && Low32(y) == Low32(y')
        ensures AgreeLow(Alu(checks, op, x, y), Alu(checks, op, x', y'))
      {
        AluLow(checks, op, x, y, x', y');
      }
    } else {
      UpperHalfLeaks(checks, op);
    }
  }

  lemma AluLow(checks: bool, op: u8, x: u64, y: u64, x': u64, y': u64)
    requires LowDetermined(checks, op)
    requires Low32(x) == Low32(x') && Low32(y) == Low32(y')
    ensures AgreeLow(Alu(checks, op, x, y), Alu(checks, op, x', y'))
  {
    hide Alu;
    if Is32Bit(op) {
      Narrow(checks, op, x, y);
      Narrow(checks, op, x', y');
    } else {
      Wide(checks, op, x, y);
      Wide(checks, op, x', y');
    }
  }

  lemma UpperHalfLeaks(checks: bool, op: u8)
    requires IsAlu(op) && !LowDetermined(checks, op)
    ensures !RespectsLow(checks, op)
  {
    hide Alu;
    if op == 0x87 {
      NegationLeaks();
    } else if op == 0x37 || op == 0x3F || op == 0x97 || op == 0x9F {
      DivisionLeaks(checks, op);
    } else {
      ShiftLeaks(checks, op);
    }
  }

  lemma NegationLeaks()
    ensures !AgreeLow(Alu(true, 0x87, 0x8000_0000_0000_0000, 0), Alu(true, 0x87, 0, 0))
  {
    hide Bitwise, Pow2;
  }

  lemma DivisionLeaks(checks: bool, op: u8)
    requires op == 0x37 || op == 0x3F || op == 0x97 || op == 0x9F
    ensures !AgreeLow(Alu(checks, op, 0x1_0000_0000, 6), Alu(checks, op, 0, 6))
  {
    hide Bitwise, Pow2;
  }

  lemma ShiftLeaks(checks: bool, op: u8)
    requires op == 0x77 || op == 0x7F || op == 0xC7 || op == 0xCF
    ensures !AgreeLow(Alu(checks, op, 0x1_0000_0000, 1), Alu(checks, op, 0, 1))
  {
    hide Alu;
    ShiftByOne(checks, op, 0x1_0000_0000);
    ShiftByOne(checks, op, 0);
  }

  lemma ShiftByOne(checks: bool, op: u8, x: u64)
    requires op == 0x77 || op == 0x7F || op == 0xC7 || op == 0xCF
    requires x < 0x8000_0000_0000_0000
    ensures Alu(checks, op, x, 1) == Value(x / 2)
  {
    assert Pow2(1) == 2 && Signed64(x) == x && Wrap64(x / 2) == x / 2;
    var one: u64 := 1;
    assert one % 64 == 1;
    hide Bitwise, Pow2, Wrap64, Signed64;
  }

  // ---- Straight-line programs ----

  /** From pc on, the text consists of opcodes that respect the low half, LDDW pairs
      and exits, up to its end. */
  predicate StraightLine(b: Build, text: Text, pc: nat)
    decreases |text| - pc
  {
    pc < |text| ==>
      var op := Decode(text[pc]).opcode;
      || (LowDetermined(b.overflowChecks, op) && StraightLine(b, text, pc + 1))
      || (op == 0x18 && StraightLine(b, text, pc + 2))
      || op == 0x95
  }

  predicate AgreeRegs(r: Regs, r': Regs) { forall k | 0 <= k < 11 :: Low32(r[k]) == Low32(r'[k]) }

  predicate AgreeStates(s: State, s': State) {
    s.pc == s'.pc && s.frames == [] && s'.frames == [] && AgreeRegs(s.regs, s'.regs)
  }

  predicate AgreeOutcomes(o: Outcome, o': Outcome) {
    match o
    case Running(s) => o'.Running? && AgreeStates(s, o'.s)
    case Halted(r0, _) => o'.Halted? && Low32(r0) == Low32(o'.r0)
    case Fault(error, _) => o'.Fault? && o'.error == error
    case Panic => o'.Panic?
  }

  lemma AluEffectsAgree(checks: bool, i: Insn, r: Regs, r': Regs)
    requires LowDetermined(checks, i.opcode) && AgreeRegs(r, r')
    ensures var e, e' := ExecAlu(checks, i, r), ExecAlu(checks, i, r');
            || (e == e' && (e.Fails? || e.Panics?))
            || (e.SetReg? && e'.SetReg? && e.dst == e'.dst < 11 && Low32(e.v) == Low32(e'.v))
  {
    hide Alu;
    if !(RegisterForm(i.opcode) && i.src >= 11) {
      var x, x' := if i.dst < 11 then r[i.dst] else 0, if i.dst < 11 then r'[i.dst] else 0;
      AluLow(checks, i.opcode, x, Operand(i, r), x', Operand(i, r'));
    }
  }

  lemma StepAgrees(b: Build, text: Text, s: State, s': State)
    requires StraightLine(b, text, s.pc) && AgreeStates(s, s')
    ensures AgreeOutcomes(Step(b, text, s), Step(b, text, s'))
    ensures Step(b, text, s).Running? ==> StraightLine(b, text, Step(b, text, s).s.pc)
  {
    hide ExecAlu, LongImmediate, ExecLoad, ExecStore, ExecConditional, ExecSyscall;
    if s.pc < |text| {
      var i := Decode(text[s.pc]);
      if LowDetermined(b.overflowChecks, i.opcode) {
        AluEffectsAgree(b.overflowChecks, i, s.regs, s'.regs);
        assert EffectAt(b, text, s) == ExecAlu(b.overflowChecks, i, s.regs);
        assert EffectAt(b, text, s') == ExecAlu(b.overflowChecks, i, s'.regs);
        hide Exec;
      }
    }
  }

  /** Low-half simulation: two runs of a straight-line program from registers that
      agree modulo 2^32 stay in agreement, and halt, fault or panic alike. */
  lemma {:induction false} RunsAgree(b: Build, text: Text, s: State, s': State, fuel: nat)
    requires StraightLine(b, text, s.pc) && AgreeStates(s, s')
    ensures AgreeOutcomes(Run(b, text, s, fuel), Run(b, text, s', fuel))
    decreases fuel
  {
    hide Step, StraightLine;
    if fuel > 0 {
      StepAgrees(b, text, s, s');
      match Step(b, text, s)
      case Running(t) => RunsAgree(b, text, t, Step(b, text, s').s, fuel - 1);
      case _ =>
    }
  }

  // ---- The upper half after a 32-bit instruction ----

  lemma SignExtendingForms(x: u64, y: u64)
    ensures Alu(false, 0x84, x, y) == Value(Wrap64(Signed32(Low32(-(Signed32(Low32(x)) as int)))))
    ensures Alu(false, 0xC4, x, y) == Value(SignedShift32(x, y)) == Alu(false, 0xCC, x, y)
  {
    hide Bitwise, Pow2;
  }

  lemma OtherNarrowFit(op: u8, x: u64, y: u64)
    requires Is32Bit(op) && op != 0x84 && op != 0xC4 && op != 0xCC
    requires Alu(false, op, x, y).Value?
    ensures Alu(false, op, x, y).v < 0x1_0000_0000
  {
    hide Bitwise, Pow2;
  }

  /** A 32-bit opcode leaves a zero upper half, except that neg32 and arsh32
      sign-extend: then exactly when the result is not negative. */
  lemma ZeroExtendsIff(op: u8, x: u64, y: u64)
    requires Is32Bit(op) && Alu(false, op, x, y).Value?
    ensures Alu(false, op, x, y).v < 0x1_0000_0000 <==>
            match op
            case 0x84 => Low32(x) == 0 || Low32(x) > 0x8000_0000
            case 0xC4 => Low32(x) < 0x8000_0000
            case 0xCC => Low32(x) < 0x8000_0000
            case _ => true
  {
    hide Alu, Pow2;
    SignExtendingForms(x, y);
    if op == 0xC4 || op == 0xCC {
      SignKept(Signed32(Low32(x)), Pow2(y % 32));
    } else if op != 0x84 {
      OtherNarrowFit(op, x, y);
    }
  }

  lemma SignKept(x: i32, p: int)
    requires p >= 1
    ensures -0x8000_0000 <= x / p < 0x8000_0000
    ensures x / p < 0 <==> x < 0
  {
    var q, r := x / p, x % p;
    assert x == p * q + r;
    if q < 0 { MulMonotone(p, q, -1); MulMonotone(-q, 1, p); }
    if q >= 0 { MulMonotone(q, 1, p); }
  }

  // ---- LDDW ----

  /** The bits from position j on. */
  function High(x: nat, j: nat): nat { ShiftRight(x, j) }

  lemma HighOfHalf(x: nat, j: nat)
    ensures High(x, j) == if j == 0 then x else High(x / 2, j - 1)
  {
    if j > 0 { DivDiv(x, 2, Pow2(j - 1)); }
  }

  /** The high bits are combined from the operands' high bits. */
  lemma {:induction false} BitwiseHigh(op: BitOperator, a: nat, b: nat, j: nat, k: nat)
    ensures High(Bitwise(op, a, b, j + k), j) == Bitwise(op, High(a, j), High(b, j), k)
  {
    hide High, Bitwise;
    HighOfHalf(a, j);
    HighOfHalf(b, j);
    HighOfHalf(Bitwise(op, a, b, j + k), j);
    if j > 0 {
      BitwiseHigh(op, a / 2, b / 2, j - 1, k);
      HalvesOfBitwise(op, a, b, j + k);
    }
  }

  lemma HalvesOfBitwise(op: BitOperator, a: nat, b: nat, w: nat)
    requires w > 0
    ensures Bitwise(op, a, b, w) / 2 == Bitwise(op, a / 2, b / 2, w - 1)
  {
    Halves(Bitwise(op, a, b, w), BitOf(op, a % 2, b % 2), Bitwise(op, a / 2, b / 2, w - 1));
  }

  lemma {:induction false} OrWithZero(a: nat, w: nat)
    requires a < Pow2(w)
    ensures Bitwise(Or, a, 0, w) == a && Bitwise(Or, 0, a, w) == a
  {
    if w > 0 { OrWithZero(a / 2, w - 1); }
  }

  lemma {:induction false} OrWithOnes(a: nat, w: nat)
    requires a < Pow2(w)
    ensures Bitwise(Or, a, Pow2(w) - 1, w) == Pow2(w) - 1
  {
    if w > 0 {
      OrWithOnes(a / 2, w - 1);
      assert (Pow2(w) - 1) / 2 == Pow2(w - 1) - 1 && (Pow2(w) - 1) % 2 == 1;
    }
  }

  lemma JoinHalves(x: u64, hi: u32, lo: u32)
    requires x % 0x1_0000_0000 == lo && x / 0x1_0000_0000 == hi
    ensures x == lo + 0x1_0000_0000 * hi
  {}

  lemma HalvesOfImmediates(imm: i32, hi: u32)
    ensures var a := Wrap64(hi * 0x1_0000_0000); a / 0x1_0000_0000 == hi && a % 0x1_0000_0000 == 0
    ensures var b := Wrap64(imm);
            b % 0x1_0000_0000 == Low32(imm) && b / 0x1_0000_0000 == if imm >= 0 then 0 else 0xFFFF_FFFF
  {}

  /** Because the low half is sign-extended before the OR, a negative low half
      swallows the high half. */
  lemma LongImmediateIs(imm: i32, hi: u32)
    ensures LongImmediate(imm, hi) == Low32(imm) + 0x1_0000_0000 * (if imm >= 0 then hi else 0xFFFF_FFFF)
  {
    hide Pow2, Bitwise, Low32, Wrap64;
    Pow2Words();
    var a, b := Wrap64(hi * 0x1_0000_0000), Wrap64(imm);
    HalvesOfImmediates(imm, hi);
    BitwiseLow(Or, a, b, 64, 32);
    OrWithZero(Low32(imm), 32);
    BitwiseHigh(Or, a, b, 32, 32);
    OrWithZero(hi, 32);
    OrWithOnes(hi, 32);
    JoinHalves(LongImmediate(imm, hi), if imm >= 0 then hi else 0xFFFF_FFFF, Low32(imm));
  }

  /** LDDW loads the 64-bit constant of its two words if and only if the low word's
      sign bit is clear or the high word is all ones. */
  lemma LongImmediateLoadsConstantIff(imm: i32, hi: u32)
    ensures LongImmediate(imm, hi) == Low32(imm) + 0x1_0000_0000 * hi <==> imm >= 0 || hi == 0xFFFF_FFFF
  {
    LongImmediateIs(imm, hi);
  }
}
