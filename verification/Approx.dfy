/** Error analysis of repeated multiplication with rounding, on a scale `t` whose unit stands for 1. */
module Approx {

  // Products go through `Times`, whose laws are proved once here; elsewhere it is a name.
  function Times(x: real, y: real): real {
    x * y
  }

  lemma TimesLaws(x: real, y: real, z: real)
    ensures Times(x, y) == Times(y, x)
    ensures Times(Times(x, y), z) == Times(x, Times(y, z))
    ensures Times(x, y - z) == Times(x, y) - Times(x, z)
    ensures Times(x, -y) == -Times(x, y)
    ensures Times(1.0, x) == x
  {
  }

  predicate Unit(x: real) {
    0.0 <= x <= 1.0
  }

  lemma UnitTimes(u: real, v: real)
    requires Unit(u) && 0.0 <= v
    ensures 0.0 <= Times(u, v) <= v
  {
    ProductNotNegative(u, v);
    ProductNotNegative(1.0 - u, v);
    assert (1.0 - u) * v == v - u * v;
  }

  lemma ProductNotNegative(u: real, v: real)
    requires 0.0 <= u && 0.0 <= v
    ensures 0.0 <= u * v
  {
  }

  /** Exact powers. */
  function RPow(x: real, n: nat): real
  {
    if n == 0 then 1.0 else Times(x, RPow(x, n - 1))
  }

  lemma {:induction false} RPowUnit(x: real, n: nat)
    requires Unit(x)
    ensures Unit(RPow(x, n))
  {
    hide Times;
    if n > 0 {
      RPowUnit(x, n - 1);
      UnitTimes(x, RPow(x, n - 1));
    }
  }

  lemma {:induction false} RPowAdds(x: real, m: nat, n: nat)
    ensures RPow(x, m + n) == Times(RPow(x, m), RPow(x, n))
  {
    hide Times;
    if m == 0 {
      TimesLaws(RPow(x, n), 0.0, 0.0);
    } else {
      RPowAdds(x, m - 1, n);
      TimesLaws(x, RPow(x, m - 1), RPow(x, n));
    }
  }

  predicate Within(a: real, b: real, e: real) {
    -e <= a - b <= e
  }

  /** What a value standing for an `n`-th power may be off by: nothing for the zeroth and first, half a unit more for each product. */
  function Slack(n: nat): real {
    if n == 0 then 0.0 else (n - 1) as real / 2.0
  }

  /** `a`, on the scale `t`, stands for `x` to the `n`. */
  predicate Stands(t: nat, a: int, x: real, n: nat) {
    0 <= a <= t && Within(a as real, Times(t as real, RPow(x, n)), Slack(n))
  }

  /** `c` is the product of `a` and `b` on the scale `t`, rounded to a nearest integer. */
  predicate RoundedProduct(t: nat, a: int, b: int, c: int) {
    2 * (c * t) <= 2 * (a * b) + t && 2 * (a * b) <= 2 * (c * t) + t
  }

  lemma Shrink(u: real, v: real, e: real)
    requires Unit(u) && 0.0 <= e && Within(v, 0.0, e)
    ensures Within(Times(u, v), 0.0, e)
  {
    hide Times;
    if v >= 0.0 {
      UnitTimes(u, v);
    } else {
      UnitTimes(u, -v);
      TimesLaws(u, v, 0.0);
    }
  }

  /** Errors of the factors add up, before rounding; `u` is the second factor as a fraction of the scale. */
  lemma ExactProductError(t: real, a: real, u: real, p: real, q: real, ea: real, eb: real)
    requires Unit(u) && Unit(p) && 0.0 <= ea && 0.0 <= eb
    requires Within(a, Times(t, p), ea) && Within(Times(t, u), Times(t, q), eb)
    ensures Within(Times(u, a), Times(t, Times(p, q)), ea + eb)
  {
    hide Times;
    var b := Times(t, u);
    Shrink(u, a - Times(t, p), ea);
    Shrink(p, b - Times(t, q), eb);
    TimesLaws(u, a, Times(t, p));
    TimesLaws(p, b, Times(t, q));
    Rearrange(t, u, p, q);
  }

  lemma Rearrange(t: real, u: real, p: real, q: real)
    ensures Times(u, Times(t, p)) == Times(p, Times(t, u))
    ensures Times(p, Times(t, q)) == Times(t, Times(p, q))
  {
    hide Times;
    TimesLaws(u, t, p);
    TimesLaws(t, u, p);
    TimesLaws(p, Times(t, u), 0.0);
    TimesLaws(p, t, q);
    TimesLaws(t, p, q);
  }

  /** A rounded product on the scale is near the exact one. */
  lemma RoundedIsNear(t: nat, a: int, b: int, c: int, u: real)
    requires 0 < t && RoundedProduct(t, a, b, c) && Times(t as real, u) == b as real
    ensures Within(c as real, Times(u, a as real), 0.5)
  {
    var x := Times(u, a as real);
    assert Times(t as real, x) == (a * b) as real by { ProductOnScale(t, a, b, u); }
    assert Times(t as real, c as real) == (c * t) as real;
    NearOnScale(t as real, c as real, x);
  }

  lemma ProductOnScale(t: nat, a: int, b: int, u: real)
    requires Times(t as real, u) == b as real
    ensures Times(t as real, Times(u, a as real)) == (a * b) as real
  {
    hide Times;
    TimesLaws(t as real, u, a as real);
    IntTimes(b, a);
  }

  lemma IntTimes(a: int, b: int)
    ensures Times(a as real, b as real) == (a * b) as real
  {
  }

  lemma NearOnScale(t: real, c: real, x: real)
    requires 0.0 < t && 2.0 * Times(t, c) <= 2.0 * Times(t, x) + t && 2.0 * Times(t, x) <= 2.0 * Times(t, c) + t
    ensures Within(c, x, 0.5)
  {
    hide Times;
    TimesLaws(t, c, x);
    TimesLaws(t, x, c);
    HalfOnScale(t, c - x);
    HalfOnScale(t, x - c);
  }

  lemma HalfOnScale(t: real, d: real)
    requires 0.0 < t && 2.0 * Times(t, d) <= t
    ensures d <= 0.5
  {
    if d > 0.5 {
      MoreThanHalf(t, d);
    }
  }

  lemma MoreThanHalf(t: real, d: real)
    requires 0.0 < t && d > 0.5
    ensures 2.0 * Times(t, d) > t
  {
    assert t * (d - 0.5) > 0.0;
    assert t * (d - 0.5) == t * d - t * 0.5;
  }

  lemma RoundedInScale(t: nat, a: int, b: int, c: int)
    requires 0 < t && 0 <= a <= t && 0 <= b <= t && RoundedProduct(t, a, b, c)
    ensures 0 <= c <= t
  {
    ProductInScale(t, a, b);
    QuotientInScale(t, a * b, c);
  }

  lemma QuotientInScale(t: nat, product: int, c: int)
    requires 0 < t && 0 <= product <= t * t && 2 * (c * t) <= 2 * product + t && 2 * product <= 2 * (c * t) + t
    ensures 0 <= c <= t
  {
    if c > t {
      IntScaleLe(t + 1, c, t);
      RowMore(t);
    } else if c < 0 {
      IntScaleLe(c, -1, t);
    }
  }

  lemma RowMore(t: int)
    ensures (t + 1) * t == t * t + t
  {
  }

  lemma ProductInScale(t: nat, a: int, b: int)
    requires 0 <= a <= t && 0 <= b <= t
    ensures 0 <= a * b <= t * t
  {
    IntScaleLe(a, t, b);
    IntScaleLe(b, t, t);
  }

  lemma IntScaleLe(x: int, y: int, t: nat)
    requires x <= y
    ensures x * t <= y * t
  {
  }

  /** One rounded product of two powers stands for the power with the exponents added. */
  lemma ProductStands(t: nat, a: int, b: int, c: int, x: real, m: nat, n: nat)
    requires 0 < t && Unit(x) && 0 < m && 0 < n
    requires Stands(t, a, x, m) && Stands(t, b, x, n) && RoundedProduct(t, a, b, c)
    ensures Stands(t, c, x, m + n)
  {
    hide RPow, RoundedProduct, Times;
    RPowUnit(x, m);
    RPowAdds(x, m, n);
    RoundedInScale(t, a, b, c);
    var u := Fraction(t, b);
    RoundedIsNear(t, a, b, c, u);
    ExactProductError(t as real, a as real, u, RPow(x, m), RPow(x, n), Slack(m), Slack(n));
  }

  /** `b` as a fraction of the scale. */
  function Fraction(t: nat, b: int): (u: real)
    requires 0 < t && 0 <= b <= t
    ensures Unit(u) && Times(t as real, u) == b as real
  {
    b as real / t as real
  }

  lemma FirstPowersStand(b: nat, x: nat, q: real)
    requires x <= b && Times(b as real, q) == x as real
    ensures Stands(b, b, q, 0) && Stands(b, x, q, 1)
  {
    hide Times;
    assert RPow(q, 0) == 1.0 && RPow(q, 1) == Times(q, RPow(q, 0));
    TimesLaws(b as real, 1.0, 0.0);
    TimesLaws(q, 1.0, 0.0);
  }
}
