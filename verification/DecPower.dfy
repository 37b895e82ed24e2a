/** Powers by squaring: how far rounding at every product can take them from the exact power. */
module DecPower {
  import opened Wrappers
  import opened Dec
  import opened Approx

  /** The squaring loop: `tmp` collects the odd factors. */
  function PowLoop(d: int, tmp: int, i: nat): Option<int>
    requires 1 <= i
    decreases i
  {
    if i == 1 then Mul(d, tmp)
    else
      var tmp' := if i % 2 != 0 then Mul(tmp, d) else Some(tmp);
      if tmp'.None? then None
      else
        var d' := Mul(d, d);
        if d'.None? then None else PowLoop(d'.value, tmp'.value, i / 2)
  }

  function Power(d: int, n: nat): Option<int> {
    if n == 0 then Some(ONE) else PowLoop(d, ONE, n)
  }

  /** A rounded product of values that stand for powers, the left of which may be exactly one. */
  lemma MulStands(a: int, b: int, x: real, m: nat, n: nat)
    requires Unit(x) && 0 < n && Stands(ONE, a, x, m) && Stands(ONE, b, x, n) && (m == 0 ==> a == ONE)
    ensures Stands(ONE, ChopRound(a * b), x, m + n)
  {
    hide Stands, ChopRound, RoundedProduct;
    if m == 0 {
      ChopRoundExact(b);
    } else {
      ChopIsRoundedProduct(a, b);
      ProductStands(ONE, a, b, ChopRound(a * b), x, m, n);
    }
  }

  /** Between zero and one no product overflows. */
  lemma MulStaysInRange(a: int, b: int, x: real, n: nat)
    requires Stands(ONE, ChopRound(a * b), x, n)
    ensures Mul(a, b) == Some(ChopRound(a * b))
  {
    hide ChopRound;
    StandsInRange(ChopRound(a * b), x, n);
  }

  lemma StandsInRange(c: int, x: real, n: nat)
    requires Stands(ONE, c, x, n)
    ensures InRange(c)
  {
    LimitIsLarge();
  }

  lemma ChopIsRoundedProduct(a: int, b: int)
    ensures RoundedProduct(ONE, a, b, ChopRound(a * b))
  {
    ChopRoundIsNearestEven(a * b, 0);
  }

  /** The exponent still to be reached: `i` more factors of exponent `k` on top of `m`. */
  function Exponent(i: nat, k: nat, m: nat): nat {
    i * k + m
  }

  /** Squaring the factor halves their number; an odd one out is multiplied in. */
  lemma HalveExponent(i: nat, k: nat, m: nat)
    ensures Exponent(i / 2, 2 * k, if i % 2 != 0 then m + k else m) == Exponent(i, k, m)
  {
    var h, r := i / 2, i % 2;
    assert (2 * h + r) * k == h * (2 * k) + r * k;
  }

  lemma MulCommutes(a: int, b: int)
    ensures Mul(a, b) == Mul(b, a)
  {
  }

  lemma {:induction false} PowLoopStands(d: int, tmp: int, i: nat, x: real, k: nat, m: nat)
    requires 1 <= i && 0 < k && Unit(x)
    requires Stands(ONE, d, x, k) && Stands(ONE, tmp, x, m) && (m == 0 ==> tmp == ONE)
    ensures var r := PowLoop(d, tmp, i);
            r.Some? && Stands(ONE, r.value, x, Exponent(i, k, m))
    decreases i
  {
    hide Mul, Stands, ChopRound;
    if i == 1 {
      MulStands(tmp, d, x, m, k);
      MulStaysInRange(tmp, d, x, m + k);
      MulCommutes(d, tmp);
    } else {
      var tmp', m' := tmp, m;
      if i % 2 != 0 {
        MulStands(tmp, d, x, m, k);
        MulStaysInRange(tmp, d, x, m + k);
        tmp', m' := Mul(tmp, d).value, m + k;
      }
      MulStands(d, d, x, k, k);
      MulStaysInRange(d, d, x, k + k);
      HalveExponent(i, k, m);
      PowLoopStands(Mul(d, d).value, tmp', i / 2, x, 2 * k, m');
    }
  }

  /**
    For a decimal between zero and one, raising to any positive power never overflows, stays between zero and
    one, and is within (n - 1) / 2 units in the last place of the exact power.
   */
  lemma PowerError(d: int, n: nat)
    requires 0 <= d <= ONE && 1 <= n
    ensures var r := Power(d, n);
            && r.Some? && 0 <= r.value <= ONE
            && Within(r.value as real, Times(ONE as real, RPow(Fraction(ONE, d), n)), (n - 1) as real / 2.0)
  {
    hide PowLoop, Times, RPow;
    var x := Fraction(ONE, d);
    FirstPowersStand(ONE, d, x);
    PowLoopStands(d, ONE, n, x, 1, 0);
  }
}
