/** Instruction words and the arithmetic of one instruction. */
module Isa {
  import opened Words

  type nibble = x: int | 0 <= x < 16

  datatype Insn = Insn(opcode: u8, dst: nibble, src: nibble, off: i16, imm: i32)

  function Decode(word: u64): Insn {
    Insn(word % 0x100,
         word / 0x100 % 16,
         word / 0x1000 % 16,
         Signed16(word / 0x1_0000 % 0x1_0000),
         Signed32(word / 0x1_0000_0000))
  }

  /** The instruction word with the given fields (RFC 9669, section 3.1). */
  function Encode(i: Insn): u64 {
    i.opcode + 0x100 * i.dst + 0x1000 * i.src + 0x1_0000 * (i.off % 0x1_0000) + 0x1_0000_0000 * Low32(i.imm)
  }

  /** Decoding is a bijection: no two words decode alike, and every combination of
      fields is the decoding of some word. */
  lemma DecodeBijective(word: u64, i: Insn)
    ensures Decode(word) == i <==> word == Encode(i)
  {
    DecodeThenEncode(word);
    EncodeThenDecode(i);
  }

  lemma DecodeThenEncode(word: u64)
    ensures Encode(Decode(word)) == word
  {
    var w1, w2, w3 := word / 0x100, word / 0x1000, word / 0x1_0000;
    DivDiv(word, 0x100, 16);
    DivDiv(word, 0x1000, 16);
    DivDiv(word, 0x1_0000, 0x1_0000);
    SignedRoundTrips(w3 % 0x1_0000, w3 / 0x1_0000);
    Recombine(word, w1, w2, w3);
  }

  lemma SignedRoundTrips(h: u16, w: u32)
    ensures Signed16(h) % 0x1_0000 == h && Low32(Signed32(w)) == w
  {}

  lemma Recombine(word: nat, w1: nat, w2: nat, w3: nat)
    requires w1 == word / 0x100 && w2 == w1 / 16 && w3 == w2 / 16
    ensures word == word % 0x100 + 0x100 * (w1 % 16) + 0x1000 * (w2 % 16)
                  + 0x1_0000 * (w3 % 0x1_0000) + 0x1_0000_0000 * (w3 / 0x1_0000)
  {}

  lemma EncodeThenDecode(i: Insn)
    ensures Decode(Encode(i)) == i
  {
    var off, imm := i.off % 0x1_0000, Low32(i.imm);
    var w3 := off + 0x1_0000 * imm;
    var w2 := i.src + 16 * w3;
    var w1 := i.dst + 16 * w2;
    var word := Encode(i);
    assert word == i.opcode + 0x100 * w1;
    QuotientIs(word, 0x100, w1, i.opcode);
    QuotientIs(w1, 16, w2, i.dst);
    QuotientIs(w2, 16, w3, i.src);
    QuotientIs(w3, 0x1_0000, imm, off);
    DivDiv(word, 0x100, 16);
    DivDiv(word, 0x1000, 16);
    DivDiv(word, 0x1_0000, 0x1_0000);
    FieldsRoundTrip(i.off, i.imm);
  }

  lemma FieldsRoundTrip(off: i16, imm: i32)
    ensures Signed16(off % 0x1_0000) == off && Signed32(Low32(imm)) == imm
  {}

  /** An instruction in memory, byte by byte: the opcode, the two register numbers, a
      16-bit offset and a 32-bit immediate, low byte first. */
  lemma DecodeBytes(bs: seq<u8>)
    requires |bs| == 8
    ensures LeNat(bs) < 0x1_0000_0000_0000_0000
    ensures var i := Decode(LeNat(bs));
            && i.opcode == bs[0] && i.dst == bs[1] % 16 && i.src == bs[1] / 16
            && i.off % 0x1_0000 == LeNat(bs[2..4]) && Low32(i.imm) == LeNat(bs[4..])
  {
    var off, imm := LeNat(bs[2..4]), LeNat(bs[4..]);
    LeNatBound(bs[2..4]);
    LeNatBound(bs[4..]);
    Pow2Words();
    TwoBytes(bs);
    LowTwo(bs[2..]);
    assert bs[2..][..2] == bs[2..4] && bs[2..][2..] == bs[4..];
    hide LeNat, Pow2, Decode;
    DecodeFields(LeNat(bs), bs[0], bs[1], off, imm);
  }

  lemma DecodeFields(word: nat, b0: u8, b1: u8, off: u16, imm: u32)
    requires word == b0 + 0x100 * b1 + 0x1_0000 * off + 0x1_0000_0000 * imm
    ensures word < 0x1_0000_0000_0000_0000
    ensures Decode(word) == Insn(b0, b1 % 16, b1 / 16, Signed16(off), Signed32(imm))
    ensures Signed16(off) % 0x1_0000 == off && Low32(Signed32(imm)) == imm
  {
    SignedRoundTrips(off, imm);
    EncodeThenDecode(Insn(b0, b1 % 16, b1 / 16, Signed16(off), Signed32(imm)));
  }

  lemma LowTwo(bs: seq<u8>)
    requires |bs| >= 2
    ensures LeNat(bs) == LeNat(bs[..2]) + 0x1_0000 * LeNat(bs[2..])
  {
    hide LeNat;
    TwoBytes(bs);
    TwoBytes(bs[..2]);
    EmptyIsZero(bs[..2][2..]);
  }

  lemma TwoBytes(bs: seq<u8>)
    requires |bs| >= 2
    ensures LeNat(bs) == bs[0] + 0x100 * bs[1] + 0x1_0000 * LeNat(bs[2..])
  {
    assert bs[1..][1..] == bs[2..];
    assert LeNat(bs[1..]) == bs[1] + 0x100 * LeNat(bs[2..]);
    assert LeNat(bs) == bs[0] + 0x100 * LeNat(bs[1..]);
  }

  lemma EmptyIsZero(bs: seq<u8>)
    requires |bs| == 0
    ensures LeNat(bs) == 0
  {}

  // ---- Arithmetic and logic ----

  /** The second operand is a register rather than the immediate. */
  predicate RegisterForm(op: u8) { op / 8 % 2 == 1 }

  predicate IsAlu(op: u8) {
    || op == 0xB7 || op == 0xBF || op == 0xB4 || op == 0xBC
    || op == 0x07 || op == 0x0F || op == 0x04 || op == 0x0C
    || op == 0x17 || op == 0x1F || op == 0x14 || op == 0x1C
    || op == 0x27 || op == 0x2F || op == 0x24 || op == 0x2C
    || op == 0x37 || op == 0x3F || op == 0x34 || op == 0x3C
    || op == 0x97 || op == 0x9F || op == 0x87 || op == 0x84
    || op == 0x47 || op == 0x4F || op == 0x44 || op == 0x4C
    || op == 0x57 || op == 0x5F || op == 0x54 || op == 0x5C
    || op == 0xA7 || op == 0xAF || op == 0xA4 || op == 0xAC
    || op == 0x67 || op == 0x6F || op == 0x64 || op == 0x6C
    || op == 0x77 || op == 0x7F || op == 0x74 || op == 0x7C
    || op == 0xC7 || op == 0xCF || op == 0xC4 || op == 0xCC
  }

  datatype AluResult = Value(v: u64) | DivideByZero | NegateOverflow

  function Quotient(x: nat, d: nat): (q: nat)
    requires d > 0
    ensures q <= x
  {
    QuotientBound(x, d);
    x / d
  }

  /** `x` is the old destination register, `y` the second operand (an immediate
      sign-extended to 64 bits). With overflow checks, negating the least
      integer panics; without them it wraps. */
  function Alu(checks: bool, op: u8, x: u64, y: u64): AluResult
    requires IsAlu(op)
  {
    match op
    // mov
    case 0xB7 => Value(y) case 0xBF => Value(y)
    case 0xB4 => Value(Low32(y)) case 0xBC => Value(Low32(y))
    // add, sub, mul
    case 0x07 => Value(Wrap64(x + y)) case 0x0F => Value(Wrap64(x + y))
    case 0x04 => Value(Low32(Low32(x) + Low32(y))) case 0x0C => Value(Low32(Low32(x) + Low32(y)))
    case 0x17 => Value(Wrap64(x - y)) case 0x1F => Value(Wrap64(x - y))
    case 0x14 => Value(Low32(Low32(x) - Low32(y))) case 0x1C => Value(Low32(Low32(x) - Low32(y)))
    case 0x27 => Value(Wrap64(x * y)) case 0x2F => Value(Wrap64(x * y))
    case 0x24 => Value(Low32(Low32(x) * Low32(y))) case 0x2C => Value(Low32(Low32(x) * Low32(y)))
    // div, mod
    case 0x37 => Divide64(x, y) case 0x3F => Divide64(x, y)
    case 0x34 => Divide32(x, y) case 0x3C => Divide32(x, y)
    case 0x97 => Modulo64(x, y) case 0x9F => Modulo64(x, y)
    // neg
    case 0x87 =>
      if checks && x == 0x8000_0000_0000_0000 then NegateOverflow else Value(Wrap64(-Signed64(x)))
    case 0x84 =>
      if checks && Low32(x) == 0x8000_0000 then NegateOverflow
      else Value(Wrap64(Signed32(Low32(-(Signed32(Low32(x)) as int)))))
    // or, and, xor
    case 0x47 => Value(Bits64(Or, x, y)) case 0x4F => Value(Bits64(Or, x, y))
    case 0x44 => Value(Bits32(Or, Low32(x), Low32(y))) case 0x4C => Value(Bits32(Or, Low32(x), Low32(y)))
    case 0x57 => Value(Bits64(And, x, y)) case 0x5F => Value(Bits64(And, x, y))
    case 0x54 => Value(Bits32(And, Low32(x), Low32(y))) case 0x5C => Value(Bits32(And, Low32(x), Low32(y)))
    case 0xA7 => Value(Bits64(Xor, x, y)) case 0xAF => Value(Bits64(Xor, x, y))
    case 0xA4 => Value(Bits32(Xor, Low32(x), Low32(y))) case 0xAC => Value(Bits32(Xor, Low32(x), Low32(y)))
    // shifts
    case 0x67 => Value(Wrap64(x * Pow2(y % 64))) case 0x6F => Value(Wrap64(x * Pow2(y % 64)))
    case 0x64 => Value(Low32(Low32(x) * Pow2(y % 32))) case 0x6C => Value(Low32(Low32(x) * Pow2(y % 32)))
    case 0x77 => Value(ShiftRight(x, y % 64)) case 0x7F => Value(ShiftRight(x, y % 64))
    case 0x74 => Value(ShiftRight(Low32(x), y % 32)) case 0x7C => Value(ShiftRight(Low32(x), y % 32))
    case 0xC7 => Value(Wrap64(Signed64(x) / Pow2(y % 64))) case 0xCF => Value(Wrap64(Signed64(x) / Pow2(y % 64)))
    case 0xC4 => Value(SignedShift32(x, y)) case 0xCC => Value(SignedShift32(x, y))
  }

  function Divide64(x: u64, y: u64): AluResult {
    if y == 0 then DivideByZero else Value(Quotient(x, y))
  }

  function Divide32(x: u64, y: u64): AluResult {
    if Low32(y) == 0 then DivideByZero else Value(Quotient(Low32(x), Low32(y)))
  }

  function Modulo64(x: u64, y: u64): AluResult {
    if y == 0 then DivideByZero else Value(x % y)
  }

  /** Sign-extends its 32-bit result, unlike the other 32-bit shifts. */
  function SignedShift32(x: u64, y: u64): u64 { Wrap64(Signed32(Low32(x)) / Pow2(y % 32)) }

  /** The value LDDW assembles: the low half is sign-extended before the OR. */
  function LongImmediate(imm: i32, hi: u32): u64 {
    Bits64(Or, Wrap64(hi * 0x1_0000_0000), Wrap64(imm))
  }

  // ---- Jumps and memory operands ----

  predicate IsConditional(op: u8) {
    || op == 0x15 || op == 0x1D || op == 0x55 || op == 0x5D
    || op == 0x25 || op == 0x2D || op == 0x35 || op == 0x3D
    || op == 0xA5 || op == 0xAD || op == 0xB5 || op == 0xBD
    || op == 0x45 || op == 0x4D || op == 0x65 || op == 0x6D
    || op == 0x75 || op == 0x7D || op == 0xC5 || op == 0xCD
    || op == 0xD5 || op == 0xDD
  }

  predicate IsJump(op: u8) { op == 0x05 || IsConditional(op) }

  predicate Taken(op: u8, x: u64, y: u64)
    requires IsConditional(op)
  {
    match op
    case 0x15 => x == y case 0x1D => x == y
    case 0x55 => x != y case 0x5D => x != y
    case 0x25 => x > y case 0x2D => x > y
    case 0x35 => x >= y case 0x3D => x >= y
    case 0xA5 => x < y case 0xAD => x < y
    case 0xB5 => x <= y case 0xBD => x <= y
    case 0x45 => Bits64(And, x, y) != 0 case 0x4D => Bits64(And, x, y) != 0
    case 0x65 => Signed64(x) > Signed64(y) case 0x6D => Signed64(x) > Signed64(y)
    case 0x75 => Signed64(x) >= Signed64(y) case 0x7D => Signed64(x) >= Signed64(y)
    case 0xC5 => Signed64(x) < Signed64(y) case 0xCD => Signed64(x) < Signed64(y)
    case 0xD5 => Signed64(x) <= Signed64(y) case 0xDD => Signed64(x) <= Signed64(y)
  }

  /** Bytes moved by a load from memory; 0 for any other opcode. */
  function LoadSize(op: u8): nat {
    match op
    case 0x71 => 1
    case 0x69 => 2
    case 0x61 => 4
    case 0x79 => 8
    case _ => 0
  }

  /** Bytes moved by a register store; 0 for any other opcode. */
  function StoreRegSize(op: u8): nat {
    match op
    case 0x73 => 1
    case 0x6B => 2
    case 0x63 => 4
    case 0x7B => 8
    case _ => 0
  }

  /** Bytes moved by an immediate store; 0 for any other opcode. */
  function StoreImmSize(op: u8): nat {
    match op
    case 0x72 => 1
    case 0x6A => 2
    case 0x62 => 4
    case 0x7A => 8
    case _ => 0
  }
}
