/**
  Fixed-point decimal columns: the coercion PostgreSQL applies when a value
  is stored in a `numeric(precision, scale)` column (ISO/IEC 9075 exact
  numeric types). The value is first rounded to `scale` fractional digits,
  ties away from zero; it is then refused with a numeric-field-overflow
  error unless its absolute value is below 10^(precision − scale).

  A stored value is kept as its unscaled integer: an amount of 12.34 in a
  scale-2 column is the integer 1234.
*/
module Numeric {
  import opened Wrappers

  /** An exact decimal value `unscaled / 10^scale`, as written by the client. */
  datatype Decimal = Decimal(unscaled: int, scale: nat)

  function Pow10(n: nat): (p: int)
    ensures p >= 1
  {
    if n == 0 then 1 else 10 * Pow10(n - 1)
  }

  lemma {:induction false} Pow10Add(a: nat, b: nat)
    ensures Pow10(a + b) == Pow10(a) * Pow10(b)
    decreases a
  {
    if a > 0 {
      Pow10Add(a - 1, b);
      assert Pow10(a + b) == 10 * Pow10(a - 1 + b);
    }
  }

  /**
    Drops the last k digits of a magnitude, rounding half up, within half a
    unit of the last kept digit.
  */
  function RoundMagnitude(m: nat, k: nat): (q: nat)
    ensures 2 * (q * Pow10(k) - m) <= Pow10(k)
    ensures 2 * (m - q * Pow10(k)) < Pow10(k)
  {
    var p := Pow10(k);
    RoundHalfUp(m, p);
    m / p + (if 2 * (m % p) >= p then 1 else 0)
  }

  /** Floor division plus one when the remainder is at least half the divisor. */
  lemma RoundHalfUp(m: nat, p: int)
    requires p >= 1
    ensures var q := m / p + (if 2 * (m % p) >= p then 1 else 0);
      q >= 0 && 2 * (q * p - m) <= p && 2 * (m - q * p) < p
  {
    var d, r := m / p, m % p;
    assert m == d * p + r;
    assert (d + 1) * p == d * p + p;
  }

  /**
    The unscaled value of d at scale s: exact when d has at most s
    fractional digits, otherwise rounded half away from zero.
  */
  function Rescale(d: Decimal, s: nat): (u: int)
    ensures d.unscaled >= 0 ==> u >= 0
    ensures d.unscaled <= 0 ==> u <= 0
  {
    if d.scale <= s then d.unscaled * Pow10(s - d.scale)
    else if d.unscaled >= 0 then RoundMagnitude(d.unscaled, d.scale - s)
    else -(RoundMagnitude(-d.unscaled, d.scale - s) as int)
  }

  /** Scaling x up by a and then by b is scaling it up by their product p. */
  lemma ScaleTwice(x: int, u: int, a: int, b: int, p: int)
    requires u == x * a && p == a * b
    ensures u * b == x * p
  {
    assert x * a * b == x * (a * b);
  }

  /** With no more than s fractional digits the value is kept exactly. */
  lemma RescaleExact(d: Decimal, s: nat)
    requires d.scale <= s
    ensures Rescale(d, s) * Pow10(d.scale) == d.unscaled * Pow10(s)
  {
    Pow10Add(s - d.scale, d.scale);
    ScaleTwice(d.unscaled, Rescale(d, s), Pow10(s - d.scale), Pow10(d.scale), Pow10(s));
  }

  /**
    With more digits the result is off by at most half a unit in the last
    kept place, measured in units of the input's own scale.
  */
  lemma RescaleError(d: Decimal, s: nat)
    requires d.scale > s
    ensures var e := Rescale(d, s) * Pow10(d.scale - s) - d.unscaled;
      -Pow10(d.scale - s) <= 2 * e <= Pow10(d.scale - s)
  {
    var p := Pow10(d.scale - s);
    if d.unscaled < 0 {
      var q := RoundMagnitude(-d.unscaled, d.scale - s);
      assert Rescale(d, s) == -q;
      assert (-q) * p == -(q * p);
    }
  }

  /** Rounding is symmetric about zero: ties go away from zero on both sides. */
  lemma RescaleNegate(d: Decimal, s: nat)
    ensures Rescale(Decimal(-d.unscaled, d.scale), s) == -Rescale(d, s)
  {
    if d.scale > s && d.unscaled == 0 {
      assert RoundMagnitude(0, d.scale - s) == 0;
    }
  }

  datatype NumericError = NumericOverflow

  /** Whether an unscaled value has at most `precision` digits in all. */
  predicate FitsPrecision(u: int, precision: nat) {
    -Pow10(precision) < u < Pow10(precision)
  }

  /** Storing d into a numeric(precision, scale) column. */
  function Coerce(d: Decimal, precision: nat, scale: nat): (r: Result<int, NumericError>)
    ensures r.Ok? <==> FitsPrecision(Rescale(d, scale), precision)
    ensures r.Ok? ==> r.value == Rescale(d, scale)
  {
    var u := Rescale(d, scale);
    if FitsPrecision(u, precision) then Ok(u) else Err(NumericOverflow)
  }

  /** A value already at the column's scale is stored unchanged, or refused. */
  lemma CoerceStoredValue(u: int, precision: nat, scale: nat)
    ensures Coerce(Decimal(u, scale), precision, scale)
      == if FitsPrecision(u, precision) then Ok(u) else Err(NumericOverflow)
  {
    assert Pow10(0) == 1;
  }

  /** 10^10 and 10^5, the bounds of the two columns of the schema. */
  lemma Pow10Bounds()
    ensures Pow10(5) == 100000
    ensures Pow10(10) == 10000000000
  {
    assert Pow10(5) == 100000 by {
      assert Pow10(1) == 10;
      assert Pow10(2) == 100;
      assert Pow10(3) == 1000;
      assert Pow10(4) == 10000;
    }
    assert Pow10(10) == 100000 * Pow10(5) by {
      Pow10Add(5, 5);
    }
  }
}
