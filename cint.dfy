/** Integer semantics of the firmware's C/C++ target (a 32-bit little-endian
    Cortex-M0): fixed-width unsigned types, wrap-around, and C's division,
    which truncates toward zero where Dafny's is Euclidean. */
module CInt {

  const TWO_8: int := 0x100
  const TWO_16: int := 0x1_0000
  const TWO_31: int := 0x8000_0000
  const TWO_32: int := 0x1_0000_0000

  type uint8 = x: int | 0 <= x < TWO_8
  type uint16 = x: int | 0 <= x < TWO_16
  type uint32 = x: int | 0 <= x < TWO_32

  datatype Option<T> = None | Some(value: T)

  /** Conversion of any integer to uint32 (reduction modulo 2^32). */
  function U32(x: int): (r: uint32)
    ensures r == x % TWO_32
    ensures 0 <= x < TWO_32 ==> r == x
  {
    x % TWO_32
  }

  /** Conversion of a uint32 to int32 (two's complement), as `(s32)` does. */
  function S32(x: uint32): (r: int)
    ensures -TWO_31 <= r < TWO_31
    ensures U32(r) == x
  {
    if x < TWO_31 then x else x - TWO_32
  }

  /** The int32 round trip: a signed value stored in a uint32 and read back
      as signed is unchanged. */
  lemma S32OfU32(x: int)
    requires -TWO_31 <= x < TWO_31
    ensures S32(U32(x)) == x
  {
  }

  /** C's `/`: the quotient truncated toward zero. */
  function CDiv(a: int, b: int): (q: int)
    requires b != 0
    ensures a >= 0 && b > 0 ==> q == a / b
  {
    if (a >= 0) == (b > 0) then Abs(a) / Abs(b) else -(Abs(a) / Abs(b))
  }

  /** C's `%`: the remainder that goes with CDiv; it has the sign of `a`. */
  function CMod(a: int, b: int): (r: int)
    requires b != 0
  {
    a - CDiv(a, b) * b
  }

  function Abs(x: int): (r: nat)
    ensures r == x || r == -x
  {
    if x < 0 then -x else x
  }

  /** What the C quotient and remainder promise: a == q*b + r with |r| < |b|
      and r of the sign of a (or zero). */
  lemma CDivMod(a: int, b: int)
    requires b != 0
    ensures a == CDiv(a, b) * b + CMod(a, b)
    ensures Abs(CMod(a, b)) < Abs(b)
    ensures a >= 0 ==> CMod(a, b) >= 0
    ensures a <= 0 ==> CMod(a, b) <= 0
  {
    if a >= 0 && b > 0 {
      CDivModPositive(a, b);
    } else if a >= 0 {
      CDivModNegDivisor(a, b);
    } else if b > 0 {
      CDivModNegDividend(a, b);
    } else {
      CDivModBothNegative(a, b);
    }
  }

  lemma CDivModPositive(a: int, b: int)
    requires a >= 0 && b > 0
    ensures CDiv(a, b) * b + CMod(a, b) == a
    ensures 0 <= CMod(a, b) < b
  {
    var q, m := a / b, a % b;
    assert CDiv(a, b) == q;
    assert a == q * b + m && 0 <= m < b;
  }

  lemma CDivModNegDivisor(a: int, b: int)
    requires a >= 0 && b < 0
    ensures CDiv(a, b) * b + CMod(a, b) == a
    ensures 0 <= CMod(a, b) < -b
  {
    var q := a / -b;
    assert CDiv(a, b) == -q;
    MulNegNeg(q, b);
  }

  lemma CDivModNegDividend(a: int, b: int)
    requires a < 0 && b > 0
    ensures CDiv(a, b) * b + CMod(a, b) == a
    ensures -b < CMod(a, b) <= 0
  {
    var q := -a / b;
    assert CDiv(a, b) == -q;
    MulNeg(q, b);
  }

  lemma CDivModBothNegative(a: int, b: int)
    requires a < 0 && b < 0
    ensures CDiv(a, b) * b + CMod(a, b) == a
    ensures b < CMod(a, b) <= 0
  {
    var q := -a / -b;
    assert CDiv(a, b) == q;
    MulNegNeg(q, -b);
  }

  lemma MulNeg(p: int, r: int)
    ensures (-p) * r == -(p * r)
  {
  }

  lemma MulNegNeg(p: int, r: int)
    ensures (-p) * (-r) == p * r
  {
  }

  /** A product strictly between -y and y has a zero factor. */
  lemma MulSmall(k: int, y: int)
    requires y > 0 && -y < k * y < y
    ensures k == 0
  {
  }

  /** Division is determined by the quotient-remainder equation. */
  lemma DivUnique(x: int, y: int, d: int, r: int)
    requires y > 0 && x == d * y + r && 0 <= r < y
    ensures x / y == d && x % y == r
  {
    var d', r' := x / y, x % y;
    assert (d - d') * y == r' - r;
    MulSmall(d - d', y);
  }

  /** A negative product with a positive factor has a negative other factor. */
  lemma NegativeFactor(k: int, y: int)
    requires y > 0 && k * y < 0
    ensures k < 0
  {
  }

  /** Truncated division of naturals is monotone in the dividend. */
  lemma DivMonotone(a: nat, b: nat, d: nat)
    requires a <= b && d >= 1
    ensures a / d <= b / d
  {
    var qa, qb := a / d, b / d;
    assert qa * d <= a && b < qb * d + d;
    assert (qa - qb - 1) * d < 0;
    NegativeFactor(qa - qb - 1, d);
  }

  /** A quotient of at least one means the dividend is at least the divisor. */
  lemma QuotientAtLeastOne(a: nat, d: nat)
    requires d >= 1 && a / d >= 1
    ensures a >= d
  {
    var q := a / d;
    assert a >= q * d;
    assert (q - 1) * d >= 0;
  }

  /** Adding a negative C remainder back to the divisor (and taking one off
      the quotient) turns C's truncated division into floor division. */
  lemma FloorFixUp(a: int, b: int)
    requires b > 0
    ensures CMod(a, b) < 0 ==> CDiv(a, b) - 1 == a / b && CMod(a, b) + b == a % b
    ensures CMod(a, b) >= 0 ==> CDiv(a, b) == a / b && CMod(a, b) == a % b
  {
    CDivMod(a, b);
    var q, r := CDiv(a, b), CMod(a, b);
    if r < 0 {
      DivUnique(a, b, q - 1, r + b);
    } else {
      DivUnique(a, b, q, r);
    }
  }

  /** Shifting the dividend by whole divisors shifts the quotient. */
  lemma DivShift(x: int, k: int, d: int)
    requires d > 0
    ensures (x + k * d) / d == x / d + k
  {
    DivUnique(x + k * d, d, x / d + k, x % d);
  }

  /** Wrapping before an addition does not change the wrapped sum. */
  lemma U32Add(x: int, y: int)
    ensures U32(U32(x) + y) == U32(x + y)
  {
    var q := x / TWO_32;
    assert U32(x) + y == (x + y) + (-q) * TWO_32;
    DivShift(x + y, -q, TWO_32);
  }

  /** The uint32 held by four bytes in little-endian order, as `memcpy`
      into a uint32 on the Cortex-M0 and `le32_to_cpu` read them. */
  function LE32(b: seq<uint8>): uint32
    requires |b| == 4
  {
    var b0, b1, b2, b3: int := b[0], b[1], b[2], b[3];
    b0 + TWO_8 * b1 + TWO_16 * b2 + 0x100_0000 * b3
  }

  /** The four bytes of a uint32, lowest first. */
  function LE32Bytes(v: uint32): (b: seq<uint8>)
    ensures |b| == 4
  {
    var x: int := v;
    [x % TWO_8, (x / TWO_8) % TWO_8, (x / TWO_16) % TWO_8, x / 0x100_0000]
  }

  /** Reading back the bytes of a value gives the value. */
  lemma LE32OfBytes(v: uint32)
    ensures LE32(LE32Bytes(v)) == v
  {
    var b := LE32Bytes(v);
    var q1, q2 := v / TWO_8, v / TWO_16;
    assert v == b[0] + TWO_8 * q1;
    assert q1 == b[1] + TWO_8 * q2 by { DivDiv(v, TWO_8, TWO_8); }
    assert q2 == b[2] + TWO_8 * b[3] by { DivDiv(v, TWO_16, TWO_8); }
  }

  /** Splitting a value read from four bytes gives the bytes back. */
  lemma BytesOfLE32(b: seq<uint8>)
    requires |b| == 4
    ensures LE32Bytes(LE32(b)) == b
  {
    var v := LE32(b);
    var r := b[1] + TWO_8 * b[2] + TWO_16 * b[3];
    assert v == b[0] + TWO_8 * r;
    DivUnique(v, TWO_8, r, b[0]);
    var r2 := b[2] + TWO_8 * b[3];
    assert v == (b[0] + TWO_8 * b[1]) + TWO_16 * r2;
    DivUnique(v, TWO_16, r2, b[0] + TWO_8 * b[1]);
    DivUnique(r, TWO_8, r2, b[1]);
    DivUnique(r2, TWO_8, b[3], b[2]);
    DivUnique(v, 0x100_0000, b[3], b[0] + TWO_8 * b[1] + TWO_16 * b[2]);
  }

  lemma DivDiv(v: nat, a: int, b: int)
    requires a > 0 && b > 0
    ensures v / a / b == v / (a * b)
  {
    var q := v / a / b;
    var r := v / a % b;
    assert v / a == q * b + r;
    assert v == (q * b + r) * a + v % a;
    assert v == q * (a * b) + (r * a + v % a);
    assert r * a + v % a < a * b by {
      assert r * a <= (b - 1) * a;
    }
    DivUnique(v, a * b, q, r * a + v % a);
  }
}
