/**
 * `decimal` values, as an unscaled integer and a scale (value = unscaled / 10^scale),
 * and FluentValidation's `PrecisionScale(precision, scale, ignoreTrailingZeros: true)`
 * rule over them.
 */
module Decimals {
  import opened Numerals

  datatype Decimal = Decimal(unscaled: int, scale: nat)

  /** `d < 0`. */
  predicate IsNegative(d: Decimal) {
    d.unscaled < 0
  }

  function Abs(x: int): nat {
    if x < 0 then -x else x
  }

  /**
   * How many times the mantissa can be divided by ten while it stays at least 1:
   * the number of its decimal digits, none for 0.
   */
  function DigitCount(m: nat): nat {
    if m == 0 then 0 else 1 + DigitCount(m / 10)
  }

  /** The trailing zero digits of the mantissa, counting at most `limit` of them. */
  function TrailingZeros(m: nat, limit: nat): (t: nat)
    ensures t <= limit
  {
    if limit == 0 || m % 10 != 0 then 0 else 1 + TrailingZeros(m / 10, limit - 1)
  }

  /** The scale once trailing zeros are ignored. */
  function SignificantScale(d: Decimal): int {
    d.scale - TrailingZeros(Abs(d.unscaled), d.scale)
  }

  /** The precision once trailing zeros are ignored. */
  function SignificantPrecision(d: Decimal): int {
    DigitCount(Abs(d.unscaled)) - TrailingZeros(Abs(d.unscaled), d.scale)
  }

  /**
   * The rule fails when the scale exceeds `scale`, or when the digits before the
   * point exceed `precision - scale`.
   */
  predicate FitsPrecisionScale(d: Decimal, precision: int, scale: int) {
    var s := SignificantScale(d);
    var p := SignificantPrecision(d);
    !(s > scale || p - s > precision - scale)
  }

  lemma {:induction false} DigitCountBound(m: nat, k: nat)
    ensures DigitCount(m) <= k <==> m < Pow10(k)
    decreases k
  {
    if k > 0 && m > 0 {
      DigitCountBound(m / 10, k - 1);
    }
  }

  lemma ModTenTimes(m: nat, p: nat)
    requires p >= 1
    ensures m % (10 * p) == 0 <==> m % 10 == 0 && (m / 10) % p == 0
  {
    if m % (10 * p) == 0 {
      var q := m / (10 * p);
      assert m == (10 * p) * q;
      assert m == 10 * (p * q);
      assert m / 10 == p * q;
      MultipleMod(p, q);
    }
    if m % 10 == 0 && (m / 10) % p == 0 {
      var q := (m / 10) / p;
      assert m / 10 == p * q;
      assert m == (10 * p) * q;
      MultipleMod(10 * p, q);
    }
  }

  lemma MultipleMod(p: nat, q: nat)
    requires p >= 1
    ensures (p * q) % p == 0
  {
    var x := p * q;
    var k, r := x / p, x % p;
    assert x == p * k + r && 0 <= r < p;
    assert p * (q - k) == r;
    if q - k >= 1 {
      MulAtLeast(p, q - k);
    } else if q - k <= -1 {
      MulAtLeast(p, k - q);
    }
  }

  lemma {:induction false} MulAtLeast(p: nat, z: int)
    requires z >= 1
    ensures p * z >= p
    decreases z
  {
    if z > 1 {
      MulAtLeast(p, z - 1);
      assert p * z == p * (z - 1) + p;
    }
  }

  lemma {:induction false} TrailingZerosAtLeast(m: nat, limit: nat, t: nat)
    requires t <= limit
    ensures TrailingZeros(m, limit) >= t <==> m % Pow10(t) == 0
    decreases t
  {
    if t > 0 {
      TrailingZerosAtLeast(m / 10, limit - 1, t - 1);
      ModTenTimes(m, Pow10(t - 1));
    }
  }

  /**
   * What `PrecisionScale(precision, scale, true)` accepts, stated on the value:
   * at most `scale` significant fractional digits, and fewer than
   * `precision - scale` digits before the point.
   */
  lemma FitsPrecisionScaleIff(d: Decimal, precision: nat, scale: nat)
    requires scale <= precision
    ensures FitsPrecisionScale(d, precision, scale) <==>
              && (d.scale <= scale || Abs(d.unscaled) % Pow10(d.scale - scale) == 0)
              && Abs(d.unscaled) < Pow10(precision - scale + d.scale)
  {
    var m := Abs(d.unscaled);
    if d.scale > scale {
      TrailingZerosAtLeast(m, d.scale, d.scale - scale);
    }
    DigitCountBound(m, precision - scale + d.scale);
  }

  /** 123.45 has two fractional digits and fits. */
  lemma TwoFractionDigitsFit()
    ensures FitsPrecisionScale(Decimal(12345, 2), 18, 2)
  {
    Pow10Values();
    FitsPrecisionScaleIff(Decimal(12345, 2), 18, 2);
  }

  /** 1.2300 fits: its trailing zeros are ignored. */
  lemma TrailingZerosIgnored()
    ensures FitsPrecisionScale(Decimal(12300, 4), 18, 2)
  {
    Pow10Values();
    FitsPrecisionScaleIff(Decimal(12300, 4), 18, 2);
  }

  /** 0.001 has three significant fractional digits and is rejected. */
  lemma ThreeFractionDigitsRejected()
    ensures !FitsPrecisionScale(Decimal(1, 3), 18, 2)
  {
    Pow10Values();
    FitsPrecisionScaleIff(Decimal(1, 3), 18, 2);
  }

  /** 10^16 has seventeen integer digits and is rejected; 10^16 - 1 fits. */
  lemma IntegerDigitsLimit()
    ensures !FitsPrecisionScale(Decimal(Pow10(16), 0), 18, 2)
    ensures FitsPrecisionScale(Decimal(Pow10(16) - 1, 0), 18, 2)
  {
    FitsPrecisionScaleIff(Decimal(Pow10(16), 0), 18, 2);
    FitsPrecisionScaleIff(Decimal(Pow10(16) - 1, 0), 18, 2);
  }

  lemma Pow10Values()
    ensures Pow10(1) == 10
    ensures Pow10(2) == 100
    ensures Pow10(16) == 10000000000000000
    ensures Pow10(18) == 1000000000000000000
    ensures Pow10(20) == 100000000000000000000
  {
    assert Pow10(4) == 10000;
    assert Pow10(8) == 100000000;
    assert Pow10(12) == 1000000000000;
    assert Pow10(16) == 10000 * Pow10(12);
    assert Pow10(18) == 100 * Pow10(16);
    assert Pow10(20) == 100 * Pow10(18);
  }
}
