/** Laws that pin the instructions' arithmetic down without repeating it: what undoes
    what, what each bit of a result is, which jumps are complements. */
module AluLaws {
  import opened Words
  import opened Isa
  import opened LowHalf

  const MOV: u8 := 0xBF
  const ADD: u8 := 0x0F
  const SUB: u8 := 0x1F
  const MUL: u8 := 0x2F
  const NEG: u8 := 0x87
  const DIV: u8 := 0x3F
  const MOD: u8 := 0x9F
  const OR: u8 := 0x4F
  const AND: u8 := 0x5F
  const XOR: u8 := 0xAF
  const LSH: u8 := 0x6F
  const RSH: u8 := 0x7F
  const ARSH: u8 := 0xCF

  /** The value an operation writes, without overflow checks; 0 where it faults. */
  function Result(op: u8, x: u64, y: u64): u64
    requires IsAlu(op)
  {
    match Alu(false, op, x, y)
    case Value(v) => v
    case _ => 0
  }

  // ---- The operations by name ----

  lemma ArithmeticForms(x: u64, y: u64)
    ensures Result(ADD, x, y) == Wrap64(x as int + y) && Result(SUB, x, y) == Wrap64(x as int - y)
    ensures Result(NEG, x, y) == Wrap64(-Signed64(x))
  {
    hide Bitwise, Pow2;
  }

  lemma DivisionForms(x: u64, y: u64)
    ensures Alu(false, DIV, x, y) == Divide64(x, y) && Alu(false, MOD, x, y) == Modulo64(x, y)
    ensures y != 0 ==> Result(DIV, x, y) == Quotient(x, y) && Result(MOD, x, y) == x % y
  {
    hide Bitwise, Pow2;
  }

  lemma LogicForms(x: u64, y: u64)
    ensures Result(OR, x, y) == Bits64(Or, x, y)
    ensures Result(AND, x, y) == Bits64(And, x, y)
    ensures Result(XOR, x, y) == Bits64(Xor, x, y)
  {
    hide Bitwise, Pow2;
  }

  lemma ShiftForms(x: u64, y: u64)
    ensures Result(LSH, x, y) == Wrap64(x as int * Pow2(y % 64))
    ensures Result(RSH, x, y) == ShiftRight(x, y % 64)
    ensures Result(ARSH, x, y) == Wrap64(Signed64(x) / Pow2(y % 64))
  {
    hide Bitwise, Pow2;
  }

  // ---- Counting ----

  /** mov copies; adding one is the successor; addition and multiplication recur on it. */
  lemma PeanoLaws(x: u64, y: u64)
    ensures Result(MOV, x, y) == y
    ensures Result(ADD, x, 1) == if x == 0xFFFF_FFFF_FFFF_FFFF then 0 else x + 1
    ensures Result(ADD, x, 0) == x && Result(ADD, x, Result(ADD, y, 1)) == Result(ADD, Result(ADD, x, y), 1)
    ensures Result(MUL, x, 0) == 0 && Result(MUL, x, Result(ADD, y, 1)) == Result(ADD, Result(MUL, x, y), x)
  {
    hide Result;
    ArithmeticForms(x, 1);
    ArithmeticForms(x, 0);
    ArithmeticForms(y, 1);
    ArithmeticForms(x, y);
    ArithmeticForms(x, Result(ADD, y, 1));
    ArithmeticForms(Result(ADD, x, y), 1);
    ArithmeticForms(Result(MUL, x, y), x);
    MovAndMulForms(x, y);
    MovAndMulForms(x, 0);
    MovAndMulForms(x, Result(ADD, y, 1));
    ProductRecurs(x, y);
    SumRecurs(x, y);
    hide Wrap64;
  }

  lemma MovAndMulForms(x: u64, y: u64)
    ensures Result(MOV, x, y) == y && Result(MUL, x, y) == Wrap64(x as int * y)
  {
    hide Bitwise, Pow2;
  }

  lemma SumRecurs(x: u64, y: u64)
    ensures Wrap64(x as int + 1) == if x == 0xFFFF_FFFF_FFFF_FFFF then 0 else x + 1
    ensures Wrap64(x as int) == x && Wrap64(x as int * 0) == 0
    ensures Wrap64(x as int + Wrap64(y as int + 1)) == Wrap64(Wrap64(x as int + y) as int + 1)
  {}

  lemma ProductRecurs(x: int, y: int)
    ensures Wrap64(x * Wrap64(y + 1)) == Wrap64(Wrap64(x * y) + x)
  {
    var q := (y + 1) / 0x1_0000_0000_0000_0000;
    assert x * (y + 1) == x * Wrap64(y + 1) + 0x1_0000_0000_0000_0000 * (x * q);
    assert x * (y + 1) == x * y + x;
    WrapOfSum(x * Wrap64(y + 1), x * q);
    WrapOfSum(Wrap64(x * y) + x, x * y / 0x1_0000_0000_0000_0000);
  }

  lemma WrapOfSum(v: int, q: int)
    ensures Wrap64(v + 0x1_0000_0000_0000_0000 * q) == Wrap64(v)
  {}

  // ---- Inverses ----

  /** Subtraction undoes addition, and is addition of the negation. */
  lemma SubtractionLaws(x: u64, y: u64)
    ensures Result(SUB, Result(ADD, x, y), y) == x
    ensures Result(SUB, x, y) == Result(ADD, x, Result(NEG, y, 0))
    ensures Result(NEG, Result(NEG, x, 0), 0) == x
  {
    hide Result;
    ArithmeticForms(x, y);
    ArithmeticForms(Result(ADD, x, y), y);
    ArithmeticForms(y, 0);
    ArithmeticForms(x, Result(NEG, y, 0));
    ArithmeticForms(x, 0);
    ArithmeticForms(Result(NEG, x, 0), 0);
    AddThenSubtract(x, y);
    AddNegated(x, y);
    NegateTwice(x);
    hide Wrap64, Signed64;
  }

  lemma AddThenSubtract(x: u64, y: u64)
    ensures Wrap64(Wrap64(x as int + y) as int - y) == x
  {}

  lemma AddNegated(x: u64, y: u64)
    ensures Wrap64(x as int - y) == Wrap64(x as int + Wrap64(-Signed64(y)))
  {}

  lemma NegateTwice(x: u64)
    ensures Wrap64(-Signed64(Wrap64(-Signed64(x)))) == x
  {}

  /** Division faults exactly on zero; otherwise quotient and remainder recombine. */
  lemma DivisionLaws(x: u64, y: u64)
    ensures Alu(false, DIV, x, y) == DivideByZero <==> y == 0
    ensures Alu(false, MOD, x, y) == DivideByZero <==> y == 0
    ensures y != 0 ==> x == y as int * Result(DIV, x, y) + Result(MOD, x, y) && Result(MOD, x, y) < y
  {
    hide Alu, Result;
    DivisionForms(x, y);
  }

  lemma {:induction false} XorTwice(a: nat, b: nat, w: nat)
    ensures Bitwise(Xor, Bitwise(Xor, a, b, w), b, w) == a % Pow2(w)
  {
    if w > 0 {
      XorTwice(a / 2, b / 2, w - 1);
      Halves(Bitwise(Xor, a, b, w), BitOf(Xor, a % 2, b % 2), Bitwise(Xor, a / 2, b / 2, w - 1));
      ModTwice(a, Pow2(w - 1));
    }
  }

  lemma XorUndoesXor(x: u64, y: u64)
    ensures Result(XOR, Result(XOR, x, y), y) == x
  {
    hide Result, Bitwise, Pow2;
    Pow2Words();
    LogicForms(x, y);
    LogicForms(Result(XOR, x, y), y);
    XorTwice(x, y, 64);
  }

  /** The 32-bit operations are the 64-bit ones on the low halves, truncated. */
  lemma NarrowIsWideOnLows(op: u8, x: u64, y: u64)
    requires op in {0x04, 0x14, 0x24, 0x34, 0x44, 0x54, 0xA4, 0xB4, 0x0C, 0x1C, 0x2C, 0x3C, 0x4C, 0x5C, 0xAC, 0xBC}
    ensures var wide := Alu(false, op + 3, Low32(x), Low32(y));
            Alu(false, op, x, y) == match wide { case Value(v) => Value(Low32(v)) case _ => wide }
  {
    hide Bits64, Bits32, Pow2, Low32, Wrap64;
    var a, b := Low32(x), Low32(y);
    LowOfLow(x);
    LowOfLow(y);
    if op in {0x44, 0x4C} {
      LowOfBits(Or, a, b);
    } else if op in {0x54, 0x5C} {
      LowOfBits(And, a, b);
    } else if op in {0xA4, 0xAC} {
      LowOfBits(Xor, a, b);
    } else if op in {0x24, 0x2C} {
      LowOfWrap(a as int * b);
    } else if op in {0x04, 0x0C} {
      LowOfWrap(a as int + b);
    } else if op in {0x14, 0x1C} {
      LowOfWrap(a as int - b);
    } else if op in {0x34, 0x3C} && b != 0 {
      LowOfLow(Quotient(a, b));
    }
  }

  /** `as i32 as i64 as u64` of the low half. */
  function SignExtend(x: u64): u64 { Wrap64(Signed32(Low32(x))) }

  lemma NarrowShiftForms(x: u64, y: u64)
    ensures Result(0x6C, x, y) == Low32(Low32(x) as int * Pow2(y % 32))
    ensures Result(0x7C, x, y) == ShiftRight(Low32(x), y % 32)
    ensures Result(0xCC, x, y) == Wrap64(Signed32(Low32(x)) / Pow2(y % 32))
    ensures Result(0x84, x, y) == Wrap64(Signed32(Low32(-(Signed32(Low32(x)) as int))))
  {
    hide Bitwise, Pow2;
  }

  /** So are the shifts, by amounts below 32; arsh32 and neg32 work on the
      sign-extended low half and do not truncate. */
  lemma NarrowShiftsAndNegation(x: u64, y: u64)
    ensures Result(0x6C, x, y) == Low32(Result(LSH, Low32(x), y % 32))
    ensures Result(0x7C, x, y) == Result(RSH, Low32(x), y % 32)
    ensures Result(0xCC, x, y) == Result(ARSH, SignExtend(x), y % 32)
    ensures Low32(x) != 0x8000_0000 ==> Result(0x84, x, y) == Result(NEG, SignExtend(x), 0)
  {
    hide Result, Pow2;
    NarrowShiftForms(x, y);
    ShiftForms(Low32(x), y % 32);
    ShiftForms(SignExtend(x), y % 32);
    ArithmeticForms(SignExtend(x), 0);
    LowOfWrap(Low32(x) as int * Pow2(y % 32));
    SignExtended(x);
    SmallAmount(y);
    hide Wrap64, Low32, Signed64, Signed32;
  }

  lemma SmallAmount(y: u64)
    ensures y % 32 % 64 == y % 32
  {}

  lemma SignExtended(x: u64)
    ensures Signed64(SignExtend(x)) == Signed32(Low32(x))
    ensures Low32(x) != 0x8000_0000 ==>
              Signed32(Low32(-(Signed32(Low32(x)) as int))) == -(Signed32(Low32(x)) as int)
  {}

  // ---- Bits ----

  /** The logical operations act on each bit. */
  lemma LogicBits(x: u64, y: u64, k: nat)
    requires k < 64
    ensures Bit(Result(OR, x, y), k) == BitOf(Or, Bit(x, k), Bit(y, k))
    ensures Bit(Result(AND, x, y), k) == BitOf(And, Bit(x, k), Bit(y, k))
    ensures Bit(Result(XOR, x, y), k) == BitOf(Xor, Bit(x, k), Bit(y, k))
  {
    hide Result, Bitwise, Pow2, Bit, BitOf;
    LogicForms(x, y);
    BitwiseBit(Or, x, y, 64, k);
    BitwiseBit(And, x, y, 64, k);
    BitwiseBit(Xor, x, y, 64, k);
  }

  lemma BitStep(x: nat, k: nat)
    ensures Bit(x, k) == if k == 0 then x % 2 else Bit(x / 2, k - 1)
  {
    if k > 0 { DivDiv(x, 2, Pow2(k - 1)); }
  }

  lemma BitOfQuotient(x: nat, j: nat, k: nat)
    ensures Bit(ShiftRight(x, j), k) == Bit(x, j + k)
  {
    DivDiv(x, Pow2(j), Pow2(k));
    Pow2Adds(j, k);
  }

  lemma SmallHasNoHighBits(x: nat, n: nat, k: nat)
    requires x < Pow2(n) && n <= k
    ensures Bit(x, k) == 0
  {
    Pow2Adds(n, k - n);
    MulAtLeast(Pow2(n), Pow2(k - n));
    QuotientIs(x, Pow2(k), 0, x);
  }

  lemma JoinHalf(high: nat, low: nat, n: nat)
    requires n > 0 && low < Pow2(n)
    ensures (high * Pow2(n) + low) / 2 == high * Pow2(n - 1) + low / 2 && (high * Pow2(n) + low) % 2 == low % 2
    ensures low / 2 < Pow2(n - 1)
  {
    var h := high * Pow2(n - 1);
    assert high * Pow2(n) == 2 * h;
    QuotientIs(2 * h + low, 2, h + low / 2, low % 2);
  }

  /** Bits of `high * 2^n + low`. */
  lemma {:induction false} BitOfJoin(high: nat, low: nat, n: nat, k: nat)
    requires low < Pow2(n)
    ensures Bit(high * Pow2(n) + low, k) == if k < n then Bit(low, k) else Bit(high, k - n)
    decreases n
  {
    hide Bit;
    if n > 0 {
      JoinHalf(high, low, n);
      BitStep(high * Pow2(n) + low, k);
      BitStep(low, k);
      if k > 0 { BitOfJoin(high, low / 2, n - 1, k - 1); }
    }
  }

  /** Wrapping keeps the low 64 bits. */
  lemma BitOfWrap(x: nat, k: nat)
    requires k < 64
    ensures Bit(Wrap64(x), k) == Bit(x, k)
  {
    Pow2Words();
    BitOfJoin(x / 0x1_0000_0000_0000_0000, Wrap64(x), 64, k);
    hide Bit, Pow2;
  }

  lemma ZeroHasNoBits(i: nat)
    ensures Bit(0, i) == 0
  {
    QuotientIs(0, Pow2(i), 0, 0);
  }

  /** The logical shifts move bits and fill with zeros. */
  lemma LogicalShiftBits(x: u64, y: u64, i: nat)
    requires i < 64
    ensures Bit(Result(RSH, x, y), i) == if i + y % 64 < 64 then Bit(x, i + y % 64) else 0
    ensures Bit(Result(LSH, x, y), i) == if i < y % 64 then 0 else Bit(x, i - y % 64)
  {
    hide Result, Bit, Pow2;
    var k := y % 64;
    Pow2Words();
    ShiftForms(x, y);
    BitOfQuotient(x, k, i);
    if i + k >= 64 { SmallHasNoHighBits(x, 64, i + k); }
    BitOfJoin(x, 0, k, i);
    BitOfWrap(x as int * Pow2(k), i);
    ZeroHasNoBits(i);
  }

  lemma ShiftedQuotient(x: int, p: nat, m: nat)
    requires p > 0
    ensures (x - p * m) / p == x / p - m
  {
    assert p * (x / p - m) == p * (x / p) - p * m;
    QuotientIs(x - p * m, p, x / p - m, x % p);
  }

  lemma QuotientBelow(x: nat, p: nat, m: nat)
    requires p > 0 && x < p * m
    ensures x / p < m
  {
    if x / p >= m { MulMonotone(p, m, x / p); }
  }

  /** A negative value shifts to its logical shift with the vacated high bits set. */
  lemma NegativeShift(x: u64, k: nat)
    requires k < 64 && x >= 0x8000_0000_0000_0000
    ensures ShiftRight(x, k) < Pow2(64 - k)
    ensures Wrap64(Signed64(x) / Pow2(k)) == (Pow2(k) - 1) * Pow2(64 - k) + ShiftRight(x, k)
  {
    hide Pow2;
    Pow2Words();
    Pow2Adds(k, 64 - k);
    var p, m := Pow2(k), Pow2(64 - k);
    ShiftedQuotient(x, p, m);
    QuotientBelow(x, p, m);
    assert (p - 1) * m == p * m - m;
    MulAtLeast(m, p);
    WrapNegative(ShiftRight(x, k) as int - m);
  }

  lemma WrapNegative(v: int)
    requires -0x1_0000_0000_0000_0000 <= v < 0
    ensures Wrap64(v) == v + 0x1_0000_0000_0000_0000
  {}

  lemma {:induction false} AllOnes(n: nat, i: nat)
    requires i < n
    ensures Bit(Pow2(n) - 1, i) == 1
  {
    hide Bit;
    BitStep(Pow2(n) - 1, i);
    Halves(Pow2(n) - 1, 1, Pow2(n - 1) - 1);
    if i > 0 { AllOnes(n - 1, i - 1); }
  }

  lemma SignBit(x: u64)
    ensures Bit(x, 63) == if x < 0x8000_0000_0000_0000 then 0 else 1
  {
    Pow2Words();
    var half := Pow2(63);
    assert Pow2(64) == 2 * half;
    hide Pow2;
    if x < half { QuotientIs(x, half, 0, x); } else { QuotientIs(x, half, 1, x - half); }
  }

  /** The arithmetic shift moves bits and fills with the sign. */
  lemma ArithmeticShiftBits(x: u64, y: u64, i: nat)
    requires i < 64
    ensures Bit(Result(ARSH, x, y), i) == Bit(x, if i + y % 64 < 64 then i + y % 64 else 63)
  {
    hide Result, Bit, Pow2;
    var k := y % 64;
    SignBit(x);
    ShiftForms(x, y);
    if x < 0x8000_0000_0000_0000 {
      LogicalShiftBits(x, y, i);
      assert Wrap64(x / Pow2(k)) == ShiftRight(x, k);
    } else {
      NegativeShift(x, k);
      BitOfJoin(Pow2(k) - 1, ShiftRight(x, k), 64 - k, i);
      BitOfQuotient(x, k, i);
      if i + k >= 64 { AllOnes(k, i + k - 64); }
    }
  }

  // ---- Jumps ----

  /** The conditional jumps come in complementary pairs, the orders mirror each other,
      and a signed comparison is the unsigned one with both sign bits flipped. */
  lemma JumpLaws(x: u64, y: u64)
    ensures Taken(0x5D, x, y) <==> !Taken(0x1D, x, y)
    ensures Taken(0xBD, x, y) <==> !Taken(0x2D, x, y)
    ensures Taken(0xAD, x, y) <==> !Taken(0x3D, x, y)
    ensures Taken(0xDD, x, y) <==> !Taken(0x6D, x, y)
    ensures Taken(0xCD, x, y) <==> !Taken(0x7D, x, y)
    ensures Taken(0x2D, x, y) <==> Taken(0xAD, y, x)
    ensures Taken(0x3D, x, y) <==> Taken(0x2D, x, y) || Taken(0x1D, x, y)
    ensures Taken(0x6D, x, y) <==> Taken(0x2D, FlipSign(x), FlipSign(y))
    ensures Taken(0x7D, x, y) <==> Taken(0x3D, FlipSign(x), FlipSign(y))
  {
    hide Bits64;
  }

  /** Where a larger number first differs from a smaller one, from the top, it has the bit. */
  lemma {:induction false} HighestDifference(x: nat, y: nat, n: nat) returns (k: nat)
    requires y < x < Pow2(n)
    ensures k < n && Exceeds(x, y, n, k)
  {
    if x / 2 == y / 2 {
      k := 0;
      forall j | 0 < j < n ensures Bit(x, j) == Bit(y, j) {
        BitStep(x, j);
        BitStep(y, j);
      }
    } else {
      var l := HighestDifference(x / 2, y / 2, n - 1);
      k := l + 1;
      BitStep(x, k);
      BitStep(y, k);
      hide Bit;
      forall j | k < j < n ensures Bit(x, j) == Bit(y, j) {
        BitStep(x, j);
        BitStep(y, j);
        assert Bit(x / 2, j - 1) == Bit(y / 2, j - 1);
      }
    }
  }

  /** Position k is the highest at which the numbers differ, and x has the bit. */
  predicate Exceeds(x: nat, y: nat, n: nat, k: nat) {
    Bit(x, k) == 1 && Bit(y, k) == 0 && forall j | k < j < n :: Bit(x, j) == Bit(y, j)
  }

  lemma ExceedsIsOneSided(x: nat, y: nat, n: nat, k: nat, l: nat)
    requires k < n && l < n && Exceeds(x, y, n, k)
    ensures !Exceeds(y, x, n, l)
  {
    hide Bit;
  }

  /** jeq is taken exactly when all bits agree, jgt exactly when x has the bit at the
      highest position where they differ. */
  lemma JumpsByBits(x: u64, y: u64)
    ensures Taken(0x1D, x, y) <==> forall k | 0 <= k < 64 :: Bit(x, k) == Bit(y, k)
    ensures Taken(0x2D, x, y) <==> exists k :: 0 <= k < 64 && Exceeds(x, y, 64, k)
  {
    hide Bit, Exceeds, Pow2, Bits64;
    Pow2Words();
    if x != y {
      var k: nat;
      if x > y { k := HighestDifference(x, y, 64); } else { k := HighestDifference(y, x, 64); }
      assert Bit(x, k) != Bit(y, k) by { DifferentBit(x, y, k); }
      if x < y {
        forall l | 0 <= l < 64 ensures !Exceeds(x, y, 64, l) { ExceedsIsOneSided(y, x, 64, k, l); }
      }
    } else {
      forall k | 0 <= k < 64 ensures !Exceeds(x, y, 64, k) { DifferentBit(x, y, k); }
    }
  }

  lemma DifferentBit(x: nat, y: nat, k: nat)
    ensures Exceeds(x, y, 64, k) || Exceeds(y, x, 64, k) ==> Bit(x, k) != Bit(y, k)
  {}

  /** jsgt: a non-negative number exceeds a negative one; of equal sign, the bits decide. */
  lemma SignedJumps(x: u64, y: u64)
    ensures Taken(0x6D, x, y) <==> Bit(x, 63) < Bit(y, 63) || (Bit(x, 63) == Bit(y, 63) && Taken(0x2D, x, y))
  {
    hide Bit, Bits64;
    SignBit(x);
    SignBit(y);
  }

  function FlipSign(x: u64): u64 { Wrap64(x as int + 0x8000_0000_0000_0000) }

  lemma {:induction false} NonZeroHasBit(x: nat, n: nat) returns (k: nat)
    requires 0 < x < Pow2(n)
    ensures k < n && Bit(x, k) == 1
  {
    if x % 2 == 1 {
      k := 0;
    } else {
      var j := NonZeroHasBit(x / 2, n - 1);
      k := j + 1;
      BitStep(x, k);
    }
  }

  /** jset is taken exactly when the operands share a set bit. */
  lemma JumpIfCommonBit(x: u64, y: u64)
    ensures Taken(0x4D, x, y) <==> exists k: nat :: k < 64 && Bit(x, k) == 1 && Bit(y, k) == 1
  {
    hide Bitwise, Pow2, Bit;
    var r := Bits64(And, x, y);
    if r != 0 {
      Pow2Words();
      var k := NonZeroHasBit(r, 64);
      BitwiseBit(And, x, y, 64, k);
    }
    if k: nat :| k < 64 && Bit(x, k) == 1 && Bit(y, k) == 1 {
      BitwiseBit(And, x, y, 64, k);
      ZeroHasNoBits(k);
    }
  }
}
