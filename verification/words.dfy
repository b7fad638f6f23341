/** Machine words as bounded integers: Rust's unsigned types, the casts between
    them, powers of two, little-endian bytes and bitwise operators. */
module Words {
  type u8 = x: int | 0 <= x < 0x100
  type u16 = x: int | 0 <= x < 0x1_0000
  type u32 = x: int | 0 <= x < 0x1_0000_0000
  type u64 = x: int | 0 <= x < 0x1_0000_0000_0000_0000
  type i16 = x: int | -0x8000 <= x < 0x8000
  type i32 = x: int | -0x8000_0000 <= x < 0x8000_0000

  datatype Option<+T> = None | Some(value: T) {
    function GetOr(default: T): T {
      if Some? then value else default
    }
  }

  datatype Result<+T, +E> = Ok(value: T) | Err(error: E)

  // ---- Casts ----

  /** `as u64`, and the result of a wrapping 64-bit operation. */
  function Wrap64(x: int): u64 { x % 0x1_0000_0000_0000_0000 }

  /** `as u32`, and the result of a wrapping 32-bit operation. */
  function Low32(x: int): u32 { x % 0x1_0000_0000 }

  /** `as i64` of a u64. */
  function Signed64(x: u64): int {
    if x < 0x8000_0000_0000_0000 then x else x - 0x1_0000_0000_0000_0000
  }

  /** `as i32` of a u32. */
  function Signed32(x: u32): i32 {
    if x < 0x8000_0000 then x else x - 0x1_0000_0000
  }

  /** `as i16` of a u16. */
  function Signed16(x: u16): i16 {
    if x < 0x8000 then x else x - 0x1_0000
  }

  // ---- Powers of two ----

  function Pow2(k: nat): (p: nat)
    ensures p >= 1
  {
    if k == 0 then 1 else 2 * Pow2(k - 1)
  }

  lemma {:induction false} Pow2Adds(j: nat, k: nat)
    ensures Pow2(j + k) == Pow2(j) * Pow2(k)
  {
    if j > 0 { Pow2Adds(j - 1, k); }
  }

  lemma Pow2Words()
    ensures Pow2(8) == 0x100
    ensures Pow2(32) == 0x1_0000_0000
    ensures Pow2(64) == 0x1_0000_0000_0000_0000
  {
    assert Pow2(4) == 0x10;
    Pow2Adds(4, 4);
    Pow2Adds(8, 8);
    Pow2Adds(16, 16);
    Pow2Adds(32, 32);
  }

  // ---- Little-endian bytes ----

  function LeNat(bs: seq<u8>): nat {
    if bs == [] then 0 else bs[0] + 0x100 * LeNat(bs[1..])
  }

  function LeBytes(v: nat, k: nat): (bs: seq<u8>)
    ensures |bs| == k
  {
    if k == 0 then [] else [v % 0x100] + LeBytes(v / 0x100, k - 1)
  }

  lemma {:induction false} LeNatBound(bs: seq<u8>)
    ensures LeNat(bs) < Pow2(8 * |bs|)
  {
    if bs != [] {
      LeNatBound(bs[1..]);
      Pow2Adds(8, 8 * |bs| - 8);
      Pow2Words();
    }
  }

  lemma {:induction false} LeBytesOfLeNat(bs: seq<u8>)
    ensures LeBytes(LeNat(bs), |bs|) == bs
  {
    if bs != [] {
      var rest := LeNat(bs[1..]);
      LeBytesOfLeNat(bs[1..]);
      QuotientIs(LeNat(bs), 0x100, rest, bs[0]);
      assert LeBytes(LeNat(bs), |bs|) == [bs[0]] + LeBytes(rest, |bs| - 1);
    }
  }

  lemma {:induction false} LeNatOfLeBytes(v: nat, k: nat)
    requires v < Pow2(8 * k)
    ensures LeNat(LeBytes(v, k)) == v
  {
    if k > 0 {
      Pow2Adds(8, 8 * k - 8);
      Pow2Words();
      hide Pow2;
      var rest := LeBytes(v / 0x100, k - 1);
      assert v / 0x100 < Pow2(8 * (k - 1));
      LeNatOfLeBytes(v / 0x100, k - 1);
      assert LeBytes(v, k) == [v % 0x100] + rest && LeBytes(v, k)[1..] == rest;
    }
  }

  /** Byte j of a little-endian encoding is digit j of the value in base 256. */
  lemma {:induction false} LeBytesAt(v: nat, k: nat, j: nat)
    requires j < k
    ensures LeBytes(v, k)[j] == v / Pow2(8 * j) % 0x100
  {
    if j > 0 {
      LeBytesAt(v / 0x100, k - 1, j - 1);
      Pow2Adds(8, 8 * j - 8);
      Pow2Words();
      DivDiv(v, 0x100, Pow2(8 * j - 8));
    }
  }

  lemma DivDiv(v: nat, a: nat, b: nat)
    requires a > 0 && b > 0
    ensures a * b > 0 && v / (a * b) == v / a / b
  {
    MulAtLeast(a, b);
    var q, r := v / a, v % a;
    var q2, r2 := q / b, q % b;
    MulSplits(a, b, q2, r2);
    MulMonotone(a, r2 + 1, b);
    MulSplits(a, 1, r2, 1);
    QuotientIs(v, a * b, q2, a * r2 + r);
  }

  lemma MulSplits(a: int, b: int, q: int, r: int)
    ensures a * (b * q + r) == (a * b) * q + a * r
  {
    assert a * (b * q) == (a * b) * q;
  }

  lemma MulMonotone(a: int, x: int, y: int)
    requires a >= 0 && x <= y
    ensures a * x <= a * y
  {}

  lemma QuotientIs(v: int, d: int, q: int, r: int)
    requires d > 0 && 0 <= r < d && v == d * q + r
    ensures v / d == q && v % d == r
  {
    EuclidUnique(d, v / d, v % d, q, r);
  }

  lemma EuclidUnique(d: int, q1: int, r1: int, q2: int, r2: int)
    requires d > 0 && 0 <= r1 < d && 0 <= r2 < d
    requires d * q1 + r1 == d * q2 + r2
    ensures q1 == q2 && r1 == r2
  {
    var gap := q1 - q2;
    assert d * gap == r2 - r1;
    if gap >= 1 {
      MulAtLeast(d, gap);
    } else if gap <= -1 {
      MulAtLeast(d, -gap);
    }
  }

  lemma MulAtLeast(d: int, k: int)
    requires d >= 0 && k >= 1
    ensures d * k >= d
  {}

  // ---- Bitwise operators, defined bit by bit ----

  datatype BitOperator = And | Or | Xor

  function BitOf(op: BitOperator, a: nat, b: nat): (r: nat)
    requires a < 2 && b < 2
    ensures r < 2
  {
    match op
    case And => if a == 1 && b == 1 then 1 else 0
    case Or => if a + b == 0 then 0 else 1
    case Xor => if a == b then 0 else 1
  }

  /** The low `w` bits of `a op b`. */
  function Bitwise(op: BitOperator, a: nat, b: nat, w: nat): (r: nat)
    ensures r < Pow2(w)
  {
    if w == 0 then 0
    else BitOf(op, a % 2, b % 2) + 2 * Bitwise(op, a / 2, b / 2, w - 1)
  }

  function Bits64(op: BitOperator, a: u64, b: u64): u64 {
    Pow2Words();
    Bitwise(op, a, b, 64)
  }

  function Bits32(op: BitOperator, a: u32, b: u32): u32 {
    Pow2Words();
    Bitwise(op, a, b, 32)
  }

  function Bit(x: nat, k: nat): nat { x / Pow2(k) % 2 }

  /** Bitwise acts on each bit position separately. */
  lemma {:induction false} BitwiseBit(op: BitOperator, a: nat, b: nat, w: nat, k: nat)
    requires k < w
    ensures Bit(Bitwise(op, a, b, w), k) == BitOf(op, Bit(a, k), Bit(b, k))
  {
    if k > 0 {
      BitwiseBit(op, a / 2, b / 2, w - 1, k - 1);
      var r := Bitwise(op, a, b, w);
      Halves(r, BitOf(op, a % 2, b % 2), Bitwise(op, a / 2, b / 2, w - 1));
      DivDiv(a, 2, Pow2(k - 1));
      DivDiv(b, 2, Pow2(k - 1));
      DivDiv(r, 2, Pow2(k - 1));
    }
  }

  lemma ModTwice(x: nat, p: nat)
    requires p > 0
    ensures x % (2 * p) == 2 * (x / 2 % p) + x % 2
    ensures x % (2 * p) / 2 == x / 2 % p && x % (2 * p) % 2 == x % 2
  {
    var q, r := x / 2 / p, x / 2 % p;
    MulSplits(2, p, q, r);
    QuotientIs(x, 2 * p, q, 2 * r + x % 2);
  }

  /** The low `k` bits of a result are determined by the low `k` bits of the operands. */
  lemma {:induction false} BitwiseLow(op: BitOperator, a: nat, b: nat, w: nat, k: nat)
    requires k <= w
    ensures Bitwise(op, a, b, w) % Pow2(k) == Bitwise(op, a % Pow2(k), b % Pow2(k), k)
  {
    if k > 0 {
      BitwiseLow(op, a / 2, b / 2, w - 1, k - 1);
      var p := Pow2(k - 1);
      var rest := Bitwise(op, a / 2, b / 2, w - 1);
      var r := Bitwise(op, a, b, w);
      Halves(r, BitOf(op, a % 2, b % 2), rest);
      ModTwice(r, p);
      ModTwice(a, p);
      ModTwice(b, p);
    }
  }

  lemma Halves(r: nat, bit: nat, rest: nat)
    requires bit < 2 && r == bit + 2 * rest
    ensures r / 2 == rest && r % 2 == bit
  {}

  /** Masking with 2^k - 1 keeps the low k bits: `x & (2^k - 1) == x % 2^k`. */
  lemma {:induction false} MaskIsMod(x: nat, k: nat, w: nat)
    requires k <= w
    ensures Bitwise(And, x, Pow2(k) - 1, w) == x % Pow2(k)
  {
    if w > 0 {
      var j := if k == 0 then 0 else k - 1;
      MaskIsMod(x / 2, j, w - 1);
      MaskHalves(k);
      if k > 0 { ModTwice(x, Pow2(j)); }
      hide Pow2;
    }
  }

  lemma MaskHalves(k: nat)
    ensures k == 0 ==> Pow2(k) == 1
    ensures k > 0 ==> Pow2(k) == 2 * Pow2(k - 1) && (Pow2(k) - 1) / 2 == Pow2(k - 1) - 1 && (Pow2(k) - 1) % 2 == 1
  {}

  // ---- Shifts ----

  /** Logical right shift; the quotient never exceeds the value. */
  function ShiftRight(x: nat, k: nat): (r: nat)
    ensures r <= x
  {
    QuotientBound(x, Pow2(k));
    x / Pow2(k)
  }

  lemma QuotientBound(x: nat, d: nat)
    requires d > 0
    ensures 0 <= x / d <= x
  {
    var q := x / d;
    assert x == d * q + x % d;
    if q >= 1 { MulAtLeast(q, d); }
  }
}
