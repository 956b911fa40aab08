/** Fixed-point decimal split used to print millivolts and millidegrees, and
    the interrupt-masking critical-section counter. */
module Utils {
  import opened CInt

  function Pow10(n: nat): (p: nat)
    ensures p >= 1
  {
    if n == 0 then 1 else 10 * Pow10(n - 1)
  }

  /** The first digit after the decimal point of |v| / 10^n: the remainder of
      the truncated division by 10^n, read in units of 10^(n-1). */
  function Digit(v: int, n: nat): int
    requires n >= 1
  {
    Abs(CMod(v, Pow10(n))) / Pow10(n - 1)
  }

  /** `idec(v, n)`: the integer part of v / 10^n. The loop builds the divisor
      10^n (0 when n <= 0, in which case the result is 0). */
  method Idec(v: int, n: int) returns (r: int)
    ensures n <= 0 ==> r == 0
    ensures n >= 1 ==> r == CDiv(v, Pow10(n))
    ensures n >= 1 ==> Abs(v - r * Pow10(n)) < Pow10(n)
    ensures n >= 1 && v >= 0 ==> r >= 0 && v - r * Pow10(n) >= 0
    ensures n >= 1 && v <= 0 ==> r <= 0 && v - r * Pow10(n) <= 0
  {
    var div := PowerLoop(n);
    r := if div != 0 then CDiv(v, div) else 0;
    if n >= 1 {
      Truncation(v, div);
    }
  }

  /** The truncated quotient by a positive divisor leaves a remainder smaller
      than the divisor and of the dividend's sign. */
  lemma Truncation(v: int, p: int)
    requires p >= 1
    ensures Abs(v - CDiv(v, p) * p) < p
    ensures v >= 0 ==> CDiv(v, p) >= 0 && v - CDiv(v, p) * p >= 0
    ensures v <= 0 ==> CDiv(v, p) <= 0 && v - CDiv(v, p) * p <= 0
  {
    CDivMod(v, p);
  }

  /** The divisor loop shared by idec and iexp:
      `for (i = 0; i < n; i++) div = (div ? div * 10 : 10);` */
  method PowerLoop(n: int) returns (div: int)
    ensures n <= 0 ==> div == 0
    ensures n >= 1 ==> div == Pow10(n)
  {
    div := 0;
    var i := 0;
    while i < n
      invariant 0 <= i <= (if n > 0 then n else 0)
      invariant div == if i == 0 then 0 else Pow10(i)
    {
      div := if div != 0 then div * 10 else 10;
      i := i + 1;
    }
  }

  /** 10^n only grows with n. */
  lemma {:induction false} Pow10Monotone(n: nat, m: nat)
    requires n <= m
    ensures Pow10(n) <= Pow10(m)
  {
    if n < m {
      Pow10Monotone(n, m - 1);
    }
  }

  /** Where the C `int` arithmetic of `idec` and `iexp` agrees with the
      unbounded model: for a 32-bit v and 1 <= n <= 8 the divisor, the
      product `idec(v, n) * div` and the scaled remainder `(v - ...) * 10`
      all fit a 32-bit int. At n = 10 the divisor itself no longer fits. */
  lemma IntermediatesFitInt(v: int, n: int)
    requires -TWO_31 <= v < TWO_31 && 1 <= n <= 8
    ensures Pow10(n) < TWO_31
    ensures -TWO_31 <= CDiv(v, Pow10(n)) * Pow10(n) < TWO_31
    ensures -TWO_31 <= (v - CDiv(v, Pow10(n)) * Pow10(n)) * 10 < TWO_31
    ensures Pow10(10) >= TWO_31
  {
    Pow10Monotone(n, 8);
    assert Pow10(8) == 100_000_000;
    assert Pow10(10) == 10_000_000_000;
    Truncation(v, Pow10(n));
  }

  /** `iexp` of utils.cpp: the first decimal digit, made non-negative by the
      final `* (v < 0 ? -1 : 1)`. */
  method Iexp(v: int, n: int) returns (r: int)
    requires n >= 1
    ensures 0 <= r <= 9
    ensures r == Digit(v, n)
  {
    var div := PowerLoop(n);
    var whole := Idec(v, n);
    r := CDiv((v - whole * div) * 10, div) * (if v < 0 then -1 else 1);
    DigitOfRemainder(v, n);
  }

  /** `iexp` of utils.h: the same digit, but without the sign correction, so
      it is negative (or zero) for negative v. */
  method InlineIexp(v: int, n: int) returns (r: int)
    requires n >= 1
    ensures -9 <= r <= 9
    ensures r == (if v < 0 then -Digit(v, n) else Digit(v, n))
  {
    var div := PowerLoop(n);
    var whole := Idec(v, n);
    r := CDiv((v - whole * div) * 10, div);
    DigitOfRemainder(v, n);
  }

  /** The truncated `(rem * 10) / 10^n` is the digit, signed like v. */
  lemma DigitOfRemainder(v: int, n: int)
    requires n >= 1
    ensures var m := CMod(v, Pow10(n));
      && CDiv(m * 10, Pow10(n)) == (if v < 0 then -Digit(v, n) else Digit(v, n))
      && 0 <= Digit(v, n) <= 9
  {
    var p, q := Pow10(n), Pow10(n - 1);
    assert p == 10 * q;
    CDivMod(v, p);
    ScaledDigit(v, p, q);
    assert Digit(v, n) == Abs(CMod(v, p)) / q;
  }

  lemma ScaledDigit(v: int, p: int, q: int)
    requires q >= 1 && p == 10 * q
    requires Abs(CMod(v, p)) < p
    requires v >= 0 ==> CMod(v, p) >= 0
    requires v <= 0 ==> CMod(v, p) <= 0
    ensures CDiv(CMod(v, p) * 10, p)
      == (if v < 0 then -(Abs(CMod(v, p)) / q) else Abs(CMod(v, p)) / q)
    ensures 0 <= Abs(CMod(v, p)) / q <= 9
  {
    var m := CMod(v, p);
    var a := Abs(m);
    DivScale(a, q);
    DivBelow(a, q);
    var t: int := m * 10;
    if v < 0 {
      assert m == -a;
      assert Abs(t) == a * 10;
      assert CDiv(t, p) == -((a * 10) / p);
    } else {
      assert m == a;
      assert CDiv(t, p) == (a * 10) / p;
    }
  }

  lemma DivScale(a: nat, q: nat)
    requires q >= 1
    ensures (a * 10) / (10 * q) == a / q
  {
    var d := a / q;
    var e := a % q;
    assert a * 10 == d * (10 * q) + e * 10;
    DivUnique(a * 10, 10 * q, d, e * 10);
  }

  lemma DivBelow(a: nat, q: nat)
    requires q >= 1 && a < 10 * q
    ensures 0 <= a / q <= 9
  {
    var d := a / q;
    assert d * q <= a;
    assert (d - 10) * q < 0;
    NegativeFactor(d - 10, q);
  }

  /** `iexp(-1500)` of utils.h is -5, where utils.cpp's gives 5. */
  method InlineIexpOfNegative() returns (inline: int, corrected: int)
    ensures inline == -5 && corrected == 5
  {
    inline := InlineIexp(-1500, 3);
    corrected := Iexp(-1500, 3);
    assert CMod(-1500, 1000) == -500;
  }

  /** The nesting counter behind ENTER_CRITICAL / EXIT_CRITICAL. Interrupts
      are masked on every enter and unmasked only when the outermost exit
      brings the counter back to zero. */
  class CriticalSection {
    var nesting: uint32
    var irqEnabled: bool

    constructor ()
      ensures nesting == 0 && irqEnabled
    {
      nesting := 0;
      irqEnabled := true;
    }

    method Enter()
      modifies this
      ensures nesting == (old(nesting) + 1) % TWO_32
      ensures !irqEnabled
    {
      irqEnabled := false;
      nesting := (nesting + 1) % TWO_32;
    }

    /** The counter is decremented as a uint32: an unbalanced exit at
        nesting 0 wraps it to 0xFFFFFFFF, and interrupts then stay in
        whatever state they were. */
    method Exit()
      modifies this
      ensures nesting == (old(nesting) + TWO_32 - 1) % TWO_32
      ensures old(nesting) > 0 ==> nesting == old(nesting) - 1
      ensures old(nesting) == 0 ==> nesting == 0xFFFF_FFFF && irqEnabled == old(irqEnabled)
      ensures irqEnabled == (nesting == 0 || old(irqEnabled))
    {
      nesting := (nesting + TWO_32 - 1) % TWO_32;
      if nesting == 0 {
        irqEnabled := true;
      }
    }

    /** One balanced enter/exit pair at the current depth: the counter is
        restored, and interrupts stay masked unless the pair was outermost. */
    method Nested()
      requires nesting < 0xFFFF_FFFF
      modifies this
      ensures nesting == old(nesting)
      ensures irqEnabled == (nesting == 0)
    {
      Enter();
      Exit();
    }
  }
}
