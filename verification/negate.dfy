/** negate_g1: the y coordinate of a curve point is subtracted from the field modulus,
    byte by byte with a borrow. */
module Negate {
  import opened Words

  /** The field modulus, big-endian. */
  const Q_BYTES: seq<u8> := [
    0x30, 0x64, 0x4e, 0x72, 0xe1, 0x31, 0xa0, 0x29, 0xb8, 0x50, 0x45, 0xb6, 0x81, 0x81, 0x58,
    0x5d, 0x97, 0x81, 0x6a, 0x91, 0x68, 0x71, 0xca, 0x8d, 0x3c, 0x20, 0x8c, 0x16, 0xd8, 0x7c,
    0xfd, 0x47]

  type Point = s: seq<u8> | |s| == 64 witness seq(64, _ => 0)

  /** Big-endian value. */
  function BeNat(bs: seq<u8>): nat {
    if bs == [] then 0 else 0x100 * BeNat(bs[..|bs| - 1]) + bs[|bs| - 1]
  }

  /** 256^n */
  function Base(n: nat): (b: nat)
    ensures b >= 1
  {
    if n == 0 then 1 else 0x100 * Base(n - 1)
  }

  lemma {:induction false} BeNatBound(bs: seq<u8>)
    ensures BeNat(bs) < Base(|bs|)
    decreases |bs|
  {
    if bs != [] { BeNatBound(bs[..|bs| - 1]); }
  }

  /** The first byte weighs 256^(n-1). */
  lemma {:induction false} BeNatHead(b: u8, bs: seq<u8>)
    ensures BeNat([b] + bs) == b * Base(|bs|) + BeNat(bs)
    decreases |bs|
  {
    if bs == [] {
      assert ([b] + bs)[..0] == [];
    } else {
      var n := |bs| - 1;
      assert ([b] + bs)[..n + 1] == [b] + bs[..n];
      BeNatHead(b, bs[..n]);
      assert 0x100 * (b * Base(n)) == b * (0x100 * Base(n));
    }
  }

  lemma EmptyIsZero()
    ensures BeNat([]) == 0
  {}

  /** Equal-length byte strings with equal values are equal. */
  lemma {:induction false} BeNatInjective(a: seq<u8>, b: seq<u8>)
    requires |a| == |b| && BeNat(a) == BeNat(b)
    ensures a == b
    decreases |a|
  {
    if a != [] {
      var n := |a| - 1;
      DigitsEqual(BeNat(a[..n]), a[n], BeNat(b[..n]), b[n]);
      BeNatInjective(a[..n], b[..n]);
      assert a == a[..n] + [a[n]] && b == b[..n] + [b[n]];
    }
  }

  lemma DigitsEqual(x: nat, d: u8, y: nat, e: u8)
    requires 0x100 * x + d == 0x100 * y + e
    ensures x == y && d == e
  {}

  /** The loop runs from the last byte to the first; it leaves the exact difference,
      with a final borrow precisely when y exceeds q. */
  method BorrowSubtract(q: seq<u8>, y: seq<u8>) returns (negY: array<u8>, borrow: int)
    requires |q| == |y| == 32
    ensures fresh(negY) && negY.Length == 32
    ensures BeNat(negY[..]) == BeNat(q) - BeNat(y) + borrow * Base(32)
    ensures borrow == if BeNat(y) <= BeNat(q) then 0 else 1
  {
    hide BeNat, Base;
    EmptyIsZero();
    negY := new u8[32](_ => 0);
    borrow := 0;
    var i := 32;
    ghost var done: seq<u8> := [];
    assert q[32..] == y[32..] == [];
    while i > 0
      invariant 0 <= i <= 32 && 0 <= borrow <= 1
      invariant done == negY[i..]
      invariant BeNat(done) == BeNat(q[i..]) - BeNat(y[i..]) + borrow * Base(32 - i)
    {
      i := i - 1;
      var diff := q[i] as int - y[i] as int - borrow;
      ghost var carried := borrow;
      if diff < 0 {
        negY[i] := diff + 256;
        borrow := 1;
      } else {
        negY[i] := diff;
        borrow := 0;
      }
      PrependDifference(negY[i], done, q[i], q[i + 1..], y[i], y[i + 1..], carried, borrow);
      done := [negY[i]] + done;
      assert q[i..] == [q[i]] + q[i + 1..] && y[i..] == [y[i]] + y[i + 1..];
    }
    assert done == negY[..] && q[0..] == q && y[0..] == y;
    BeNatBound(done);
    BeNatBound(q);
    BeNatBound(y);
  }

  /** negate_g1: keeps x, replaces y. */
  method NegateG1(piA: Point) returns (out: array<u8>)
    ensures fresh(out) && out.Length == 64
    ensures IsNegation(piA, out[..])
  {
    hide BeNat, Base;
    var negY, borrow := BorrowSubtract(Q_BYTES, piA[32..]);
    out := new u8[64](i requires 0 <= i < 64 => if i < 32 then piA[i] else 0);
    ghost var bytes := negY[..];
    for k := 0 to 32
      invariant out[..32] == piA[..32] && negY[..] == bytes && out[32..32 + k] == bytes[..k]
    {
      out[32 + k] := negY[k];
    }
    assert out[..][..32] == piA[..32] && out[..][32..] == bytes;
    DifferenceIsNegation(piA, out[..], borrow);
  }

  /** One turn of the loop, on values. */
  lemma PrependDifference(d: u8, ds: seq<u8>, q: u8, qs: seq<u8>, y: u8, ys: seq<u8>, carried: int, borrow: int)
    requires |ds| == |qs| == |ys|
    requires BeNat(ds) == BeNat(qs) - BeNat(ys) + carried * Base(|ds|)
    requires d + carried == q as int - y + 0x100 * borrow
    ensures BeNat([d] + ds) == BeNat([q] + qs) - BeNat([y] + ys) + borrow * Base(|ds| + 1)
  {
    BeNatHead(d, ds);
    BeNatHead(q, qs);
    BeNatHead(y, ys);
    BorrowStep(d, q, y, carried, borrow, Base(|ds|));
    hide BeNat;
  }

  lemma BorrowStep(digit: u8, q: u8, y: u8, carried: int, borrow: int, base: nat)
    requires digit + carried == q as int - y + 0x100 * borrow
    ensures digit * base + carried * base == q * base - y * base + borrow * (0x100 * base)
  {
    assert (digit + carried) * base == (q as int - y + 0x100 * borrow) * base;
  }

  // ---- The specification and its laws ----

  /** The 32 bytes of the difference modulo 2^256. */
  function NegatedY(y: seq<u8>): nat { (BeNat(Q_BYTES) - BeNat(y)) % Base(32) }

  /** `out` is the result of negating `p`. */
  predicate IsNegation(p: Point, out: Point) {
    out[..32] == p[..32] && BeNat(out[32..]) == NegatedY(p[32..])
  }

  /** What the method leaves is the negation. */
  lemma DifferenceIsNegation(p: Point, out: Point, borrow: int)
    requires out[..32] == p[..32]
    requires BeNat(out[32..]) == BeNat(Q_BYTES) - BeNat(p[32..]) + borrow * Base(32)
    ensures IsNegation(p, out)
  {
    hide BeNat, Base;
    BeNatBound(out[32..]);
    assert BeNat(Q_BYTES) - BeNat(p[32..]) == Base(32) * -borrow + BeNat(out[32..]);
    QuotientIs(BeNat(Q_BYTES) - BeNat(p[32..]), Base(32), -borrow, BeNat(out[32..]));
  }

  /** Negation is a function and an involution on every 64-byte input. */
  lemma NegationIsInvolution(p: Point, out: Point, again: Point)
    requires IsNegation(p, out)
    ensures IsNegation(out, again) <==> again == p
  {
    hide BeNat, Base;
    var q, y, m := BeNat(Q_BYTES), BeNat(p[32..]), Base(32);
    BeNatBound(p[32..]);
    TwiceSubtracted(q, y, m);
    if IsNegation(out, again) {
      BeNatInjective(again[32..], p[32..]);
      assert again == again[..32] + again[32..] && p == p[..32] + p[32..];
    }
  }

  lemma TwiceSubtracted(q: int, y: nat, m: nat)
    requires y < m
    ensures (q - (q - y) % m) % m == y
  {
    var k := (q - y) / m;
    assert q - y == m * k + (q - y) % m;
    QuotientIs(q - (q - y) % m, m, k, y);
  }

  // ---- The curve y^2 = x^3 + 3 over the field ----

  predicate OnCurve(q: nat, x: nat, y: nat)
    requires q > 0
  {
    (y * y - (x * x * x + 3)) % q == 0
  }

  lemma FieldNegation(q: nat, x: nat, y: nat)
    requires q > 0 && y <= q
    ensures OnCurve(q, x, q - y) <==> OnCurve(q, x, y)
  {
    var rhs := x * x * x + 3;
    SquareOfDifference(q, y);
    SameRemainder(y * y - rhs, q, q - 2 * y);
  }

  lemma SquareOfDifference(q: int, y: int)
    ensures (q - y) * (q - y) == q * (q - 2 * y) + y * y
  {}

  lemma SameRemainder(c: int, q: nat, k: int)
    requires q > 0
    ensures (q * k + c) % q == c % q
  {
    assert q * k + c == q * (c / q + k) + c % q;
    QuotientIs(q * k + c, q, c / q + k, c % q);
  }

  /** For y up to the modulus the result is the field negation: it keeps x, and lies
      on the curve exactly when the input does. y = 0 becomes the modulus itself. */
  lemma NegationStaysOnCurve(p: Point, out: Point)
    requires IsNegation(p, out) && BeNat(p[32..]) <= BeNat(Q_BYTES)
    ensures BeNat(out[32..]) == BeNat(Q_BYTES) - BeNat(p[32..])
    ensures BeNat(Q_BYTES) > 0
    ensures OnCurve(BeNat(Q_BYTES), BeNat(out[..32]), BeNat(out[32..])) <==>
            OnCurve(BeNat(Q_BYTES), BeNat(p[..32]), BeNat(p[32..]))
    ensures BeNat(p[32..]) == 0 ==> out[32..] == Q_BYTES
  {
    hide OnCurve, BeNat, Base;
    ModulusPositive();
    var q, y := BeNat(Q_BYTES), BeNat(p[32..]);
    BeNatBound(Q_BYTES);
    QuotientIs(q - y, Base(32), 0, q - y);
    FieldNegation(q, BeNat(p[..32]), y);
    if y == 0 { BeNatInjective(out[32..], Q_BYTES); }
  }

  lemma ModulusPositive()
    ensures BeNat(Q_BYTES) > 0
  {
    assert Q_BYTES[31] == 0x47;
  }

  // ---- The modulus ----

  lemma OneByte(pre: seq<u8>, b: u8)
    ensures BeNat(pre + [b]) == 0x100 * BeNat(pre) + b
  {
    assert (pre + [b])[..|pre|] == pre;
  }

  lemma FourBytes(pre: seq<u8>, a: u8, b: u8, c: u8, d: u8)
    ensures BeNat(pre + [a, b, c, d]) == 0x1_0000_0000 * BeNat(pre) + 0x100_0000 * a + 0x1_0000 * b + 0x100 * c + d
  {
    hide BeNat;
    OneByte(pre, a);
    OneByte(pre + [a], b);
    OneByte(pre + [a] + [b], c);
    OneByte(pre + [a] + [b] + [c], d);
    assert pre + [a, b, c, d] == pre + [a] + [b] + [c] + [d];
  }

  /** The first words of the modulus, most significant first, as one number. */
  lemma ModulusWords(k: nat)
    requires k < 8
    ensures BeNat(Q_BYTES[..4 * k + 4]) == 0x1_0000_0000 * BeNat(Q_BYTES[..4 * k]) +
            [0x3064_4e72, 0xe131_a029, 0xb850_45b6, 0x8181_585d, 0x9781_6a91, 0x6871_ca8d, 0x3c20_8c16, 0xd87c_fd47][k]
  {
    hide BeNat;
    FourBytes(Q_BYTES[..4 * k], Q_BYTES[4 * k], Q_BYTES[4 * k + 1], Q_BYTES[4 * k + 2], Q_BYTES[4 * k + 3]);
    assert Q_BYTES[..4 * k + 4] ==
           Q_BYTES[..4 * k] + [Q_BYTES[4 * k], Q_BYTES[4 * k + 1], Q_BYTES[4 * k + 2], Q_BYTES[4 * k + 3]];
  }

  /** The bytes spell the field modulus of the Barreto-Naehrig curve with parameter u. */
  lemma ModulusIsCurvePrime(u: nat)
    requires u == 4965661367192848881
    ensures BeNat(Q_BYTES) == 36 * (u * u * u * u) + 36 * (u * u * u) + 24 * (u * u) + 6 * u + 1
  {
    hide BeNat;
    EmptyIsZero();
    ModulusWords(0);
    ModulusWords(1);
    ModulusWords(2);
    ModulusWords(3);
    ModulusWords(4);
    ModulusWords(5);
    ModulusWords(6);
    ModulusWords(7);
    assert Q_BYTES[..32] == Q_BYTES && Q_BYTES[..0] == [];
  }

  /** The generator (1, 2) lies on the curve; (1, 3) does not. */
  lemma GeneratorOnCurve()
    ensures BeNat(Q_BYTES) > 0 && OnCurve(BeNat(Q_BYTES), 1, 2) && !OnCurve(BeNat(Q_BYTES), 1, 3)
  {
    var u := 4965661367192848881;
    ModulusIsCurvePrime(u);
    assert BeNat(Q_BYTES) > 9;
    QuotientIs(0, BeNat(Q_BYTES), 0, 0);
    QuotientIs(5, BeNat(Q_BYTES), 0, 5);
    hide BeNat;
  }
}
