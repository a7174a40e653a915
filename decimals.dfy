/** Exact non-negative decimal numbers, as decimal.js holds them: `units / 10^places`.
    Every operation is exact; rounding happens only where an operation names its mode. */
module Decimals {
  import opened Numerals

  datatype Dec = Dec(units: nat, places: nat)

  const ONE := Dec(1, 0)

  /** The rational number a decimal denotes. */
  function Value(d: Dec): real {
    d.units as real / Pow10(d.places) as real
  }

  /** One unit in the last place of a `k`-place decimal, 10^-k. */
  function Ulp(k: nat): real {
    Value(Dec(1, k))
  }

  function Max(a: nat, b: nat): nat {
    if a < b then b else a
  }

  lemma CastMul(a: nat, b: nat)
    ensures (a * b) as real == a as real * b as real
  {
  }

  lemma ScaleFraction(u: real, p: real, e: real)
    requires p > 0.0 && e > 0.0
    ensures (u * e) / (p * e) == u / p
  {
  }

  lemma MulFractions(a: real, p: real, b: real, e: real)
    requires p > 0.0 && e > 0.0
    ensures (a / p) * (b / e) == (a * b) / (p * e)
  {
  }

  /** Appending `e` zero places leaves the value alone. */
  lemma ValueScale(u: nat, p: nat, e: nat)
    ensures Value(Dec(u * Pow10(e), p + e)) == Value(Dec(u, p))
  {
    Pow10Add(p, e);
    CastMul(u, Pow10(e));
    CastMul(Pow10(p), Pow10(e));
    ScaleFraction(u as real, Pow10(p) as real, Pow10(e) as real);
  }

  /** At a common number of places, values compare and add as their units do. */
  lemma ValueSamePlaces(x: nat, y: nat, p: nat)
    ensures Value(Dec(x, p)) <= Value(Dec(y, p)) <==> x <= y
    ensures Value(Dec(x, p)) + Value(Dec(y, p)) == Value(Dec(x + y, p))
  {
    assert Pow10(p) as real > 0.0;
  }

  lemma ValueNonNegative(d: Dec)
    ensures Value(d) >= 0.0
  {
    ValueSamePlaces(0, d.units, d.places);
  }

  /** The same value written with `p` places. */
  function Align(d: Dec, p: nat): (r: Dec)
    requires d.places <= p
    ensures r.places == p && Value(r) == Value(d)
  {
    ValueScale(d.units, d.places, p - d.places);
    Dec(d.units * Pow10(p - d.places), p)
  }

  function Add(a: Dec, b: Dec): (r: Dec)
    ensures Value(r) == Value(a) + Value(b)
  {
    var p := Max(a.places, b.places);
    var x, y := Align(a, p), Align(b, p);
    ValueSamePlaces(x.units, y.units, p);
    Dec(x.units + y.units, p)
  }

  /** decimal.js `a.gte(b)`. */
  function AtLeast(a: Dec, b: Dec): (r: bool)
    ensures r <==> Value(a) >= Value(b)
  {
    var p := Max(a.places, b.places);
    var x, y := Align(a, p), Align(b, p);
    ValueSamePlaces(y.units, x.units, p);
    x.units >= y.units
  }

  /** decimal.js `a.sub(b)`, then replaced by zero when negative. */
  function ClampedSub(a: Dec, b: Dec): (r: Dec)
    ensures Value(r) == if Value(a) < Value(b) then 0.0 else Value(a) - Value(b)
  {
    var p := Max(a.places, b.places);
    var x, y := Align(a, p), Align(b, p);
    ValueSamePlaces(x.units, y.units, p);
    if x.units < y.units then
      assert Value(Dec(0, p)) == 0.0;
      Dec(0, p)
    else
      ValueSamePlaces(x.units - y.units, y.units, p);
      Dec(x.units - y.units, p)
  }

  /** decimal.js `a.mul(b)`, exact. */
  function Mul(a: Dec, b: Dec): (r: Dec)
    ensures Value(r) == Value(a) * Value(b)
  {
    Pow10Add(a.places, b.places);
    CastMul(a.units, b.units);
    CastMul(Pow10(a.places), Pow10(b.places));
    MulFractions(a.units as real, Pow10(a.places) as real, b.units as real, Pow10(b.places) as real);
    Dec(a.units * b.units, a.places + b.places)
  }

  /** decimal.js `a.div(2)`, exact: x / 2 = 5x / 10. */
  function Half(a: Dec): (r: Dec)
    ensures Value(r) * 2.0 == Value(a)
  {
    var r := Dec(a.units * 5, a.places + 1);
    ValueScale(a.units, a.places, 1);
    ValueSamePlaces(a.units * 5, a.units * 5, a.places + 1);
    r
  }

  /** No trailing zero among the places: the form decimal.js prints. */
  predicate Trimmed(d: Dec) {
    d.places == 0 || d.units % 10 != 0
  }

  /** Drops trailing zero places (decimal.js keeps no trailing zeros). */
  function Trim(d: Dec): (r: Dec)
    ensures Trimmed(r) && Value(r) == Value(d) && r.places <= d.places
    ensures Trimmed(d) ==> r == d
    decreases d.places
  {
    if d.places > 0 && d.units % 10 == 0 then
      ValueScale(d.units / 10, d.places - 1, 1);
      Trim(Dec(d.units / 10, d.places - 1))
    else d
  }

  /** decimal.js `toDecimalPlaces(k, ROUND_FLOOR)`; for these non-negative numbers ROUND_DOWN is
      the same mode. The result has exactly `k` places; with fewer places zeros are appended,
      with more the extra places are cut one at a time. */
  function FloorTo(d: Dec, k: nat): (r: Dec)
    ensures r.places == k
    ensures d.places <= k ==> r == Align(d, k)
    ensures d.places > k ==>
      r.units * Pow10(d.places - k) <= d.units < (r.units + 1) * Pow10(d.places - k)
    decreases d.places
  {
    if d.places <= k then Align(d, k)
    else
      var r := FloorTo(Dec(d.units / 10, d.places - 1), k);
      FloorStep(r.units, Pow10(d.places - 1 - k), d.units);
      r
  }

  lemma FloorStep(r: nat, q: nat, u: nat)
    requires r * q <= u / 10 < (r + 1) * q
    ensures r * (10 * q) <= u < (r + 1) * (10 * q)
  {
    assert r * (10 * q) == 10 * (r * q);
    assert (r + 1) * (10 * q) == 10 * ((r + 1) * q);
  }

  /** The value a floor cut loses is below one unit in the last kept place. */
  lemma FloorToValue(d: Dec, k: nat)
    ensures Value(FloorTo(d, k)) <= Value(d) < Value(FloorTo(d, k)) + Ulp(k)
  {
    var r := FloorTo(d, k);
    if d.places <= k {
      UlpPositive(k);
    } else {
      var e := d.places - k;
      var E := Pow10(e);
      BetweenAtScale(r.units, d.units, k, e);
    }
  }

  lemma UlpPositive(k: nat)
    ensures Ulp(k) > 0.0
  {
    ValueSamePlaces(1, 0, k);
  }

  /** `x / 10^(k+e)` lies in `[r / 10^k, (r + 1) / 10^k)` when `x` lies in `[r * 10^e, (r + 1) * 10^e)`. */
  lemma BetweenAtScale(r: nat, x: nat, k: nat, e: nat)
    requires r * Pow10(e) <= x < (r + 1) * Pow10(e)
    ensures Value(Dec(r, k)) <= Value(Dec(x, k + e)) < Value(Dec(r, k)) + Ulp(k)
  {
    var E := Pow10(e);
    ValueScale(r, k, e);
    ValueScale(1, k, e);
    assert 1 * E == E;
    assert (r + 1) * E == r * E + E;
    ValueSamePlaces(r * E, x, k + e);
    ValueSamePlaces(r * E, E, k + e);
    ValueSamePlaces(r * E + E, x, k + e);
  }

  /** decimal.js `toFixed(k)` rounding (its default mode, ROUND_HALF_UP): a dropped tail of half
      a unit or more in the last kept place rounds up. The first dropped digit decides it. */
  function RoundHalfUpTo(d: Dec, k: nat): (r: Dec)
    ensures r.places == k
    ensures d.places <= k ==> Value(r) == Value(d)
  {
    if d.places <= k then Align(d, k)
    else
      var f := FloorTo(d, k + 1);
      Dec(f.units / 10 + (if f.units % 10 >= 5 then 1 else 0), k)
  }

  /** Half-up rounding moves a value by at most half a unit in the last place, and moves it
      down by strictly less. */
  lemma RoundHalfUpToValue(d: Dec, k: nat)
    ensures Value(d) - Value(RoundHalfUpTo(d, k)) < Ulp(k) / 2.0
    ensures Value(RoundHalfUpTo(d, k)) - Value(d) <= Ulp(k) / 2.0
  {
    UlpPositive(k);
    if d.places > k {
      var r := RoundHalfUpTo(d, k);
      var g := FloorTo(d, k + 1).units;
      var e := d.places - k - 1;
      var E := Pow10(e);
      HalfUpStep(g, E, d.units);
      assert d.places == k + (e + 1);
      HalfUnitBelow(r.units, d.units, k, e);
      HalfUnitAbove(r.units, d.units, k, e);
    }
  }

  /** `5 * 10^e` at `k + e + 1` places is half a unit of place `k`, and `r` at `k` places is
      `r * 10^(e+1)` there. */
  lemma HalfUnitScale(ru: nat, k: nat, e: nat)
    ensures Value(Dec(ru * (10 * Pow10(e)), k + (e + 1))) == Value(Dec(ru, k))
    ensures Value(Dec(5 * Pow10(e), k + (e + 1))) == Ulp(k) / 2.0
  {
    var E := Pow10(e);
    ValueScale(ru, k, e + 1);
    ValueScale(1, k, e + 1);
    assert Pow10(e + 1) == 10 * E;
    assert 1 * (10 * E) == 10 * E;
    ValueSamePlaces(5 * E, 5 * E, k + (e + 1));
  }

  lemma HalfUnitBelow(ru: nat, x: nat, k: nat, e: nat)
    requires x < ru * (10 * Pow10(e)) + 5 * Pow10(e)
    ensures Value(Dec(x, k + (e + 1))) - Value(Dec(ru, k)) < Ulp(k) / 2.0
  {
    var E := Pow10(e);
    var a, b, p := ru * (10 * E), 5 * E, k + (e + 1);
    HalfUnitScale(ru, k, e);
    ValueSamePlaces(a, b, p);
    ValueSamePlaces(a + b, x, p);
    assert Value(Dec(x, p)) < Value(Dec(a + b, p));
  }

  lemma HalfUnitAbove(ru: nat, x: nat, k: nat, e: nat)
    requires ru * (10 * Pow10(e)) <= x + 5 * Pow10(e)
    ensures Value(Dec(ru, k)) - Value(Dec(x, k + (e + 1))) <= Ulp(k) / 2.0
  {
    var E := Pow10(e);
    HalfUnitScale(ru, k, e);
    ValueSamePlaces(x, 5 * E, k + (e + 1));
    ValueSamePlaces(ru * (10 * E), x + 5 * E, k + (e + 1));
  }

  lemma HalfUpStep(g: nat, e: nat, u: nat)
    requires e >= 1 && g * e <= u < (g + 1) * e
    ensures var r := g / 10 + (if g % 10 >= 5 then 1 else 0);
      u < r * (10 * e) + 5 * e && r * (10 * e) <= u + 5 * e
  {
    var q, t := g / 10, g % 10;
    assert g * e == q * (10 * e) + t * e;
    assert (g + 1) * e == g * e + e;
    if t >= 5 {
      assert t * e >= 5 * e;
      assert t * e <= 9 * e;
      assert (q + 1) * (10 * e) == q * (10 * e) + 10 * e;
    } else {
      assert t * e <= 4 * e;
    }
  }
}
