/** Square roots by Newton's method on integers: the method always converges, and to what. */
module DecSqrt {
  import opened Wrappers
  import opened Bits
  import opened Dec
  import opened DecPower

  const MAX_ITERATIONS: nat := 300

  /** Conversion of an unsigned 64-bit root to a signed one. */
  function Int64(root: nat): (r: int)
    requires root < 0x1_0000_0000_0000_0000
    ensures -0x8000_0000_0000_0000 <= r < 0x8000_0000_0000_0000
    ensures r == root || r + 0x1_0000_0000_0000_0000 == root
  {
    if root < 0x8000_0000_0000_0000 then root else root - 0x1_0000_0000_0000_0000
  }

  /** One Newton step from `guess`: the correction and the next guess; `None` is an overflow panic. */
  function NewtonStep(d: int, root: nat, guess: int): Option<(int, int)>
    requires 2 <= root < 0x1_0000_0000_0000_0000
  {
    var prev := if root == 2 then Some(guess) else Power(guess, root - 1);
    if prev.None? then None
    else
      var quotient := QuoDec(d, if prev.value == 0 then 1 else prev.value);
      if quotient.None? || !InRange(quotient.value - guess) then None
      else
        var diff := quotient.value - guess;
        var delta := if root == 2 then diff / 2 else Quo(diff, Int64(root));
        if InRange(guess + delta) then Some((delta, guess + delta)) else None
  }

  /** The Newton loop; the last correction is returned with the guess. */
  function NewtonLoop(d: int, root: nat, guess: int, delta: int, iter: nat): Option<(int, int)>
    requires 2 <= root < 0x1_0000_0000_0000_0000
    decreases MAX_ITERATIONS - iter
  {
    if Abs(delta) <= 1 || MAX_ITERATIONS <= iter then Some((guess, delta))
    else match NewtonStep(d, root, guess)
      case None => None
      case Some((delta', guess')) => NewtonLoop(d, root, guess', delta', iter + 1)
  }

  /** `None` is the error into which a panic is turned. */
  function ApproxRoot(d: int, root: nat): Option<int>
    requires root < 0x1_0000_0000_0000_0000
    decreases if d < 0 then 1 else 0
  {
    if d < 0 then (match ApproxRoot(-d, root) case None => None case Some(r) => Some(-r))
    else if root == 1 || d == 0 || d == ONE then Some(d)
    else if root == 0 then Some(ONE)
    else match NewtonLoop(d, root, ONE, ONE, 0)
      case None => None
      case Some((guess, _)) => Some(guess)
  }

  // ---------------------------------------------------------------- one step

  /** The doubly rounded quotient is less than one unit from the exact one. */
  lemma QuotientNear(d: nat, g: nat)
    requires 0 < g
    ensures var q := ChopRound(Scaled(d, g));
            0 <= q && (q - 1) * g < d * ONE < (q + 1) * g
  {
    hide ChopRound, Scaled;
    var q, n := ChopRound(Scaled(d, g)), d * ONE;
    QuoDecError(d, g);
    assert Abs(q * ONE * g - d * (ONE * ONE)) < g * (HALF + 1);
    DivideByOne(q, g, n);
    if q < 0 {
      Dec.MulMono(1, -q, g);
    }
  }

  lemma DivideByOne(q: int, g: nat, n: nat)
    requires 0 < g && Abs(q * ONE * g - n * ONE) < g * (HALF + 1)
    ensures (q - 1) * g < n < (q + 1) * g
  {
    assert q * ONE * g - n * ONE == (q * g - n) * ONE;
    assert Abs(q * g - n) * ONE < g * ONE;
    assert (q - 1) * g == q * g - g && (q + 1) * g == q * g + g;
  }

  /** `s` is the integer square root of `n`. */
  predicate IsRoot(s: nat, n: nat) {
    s * s <= n < (s + 1) * (s + 1)
  }

  lemma AmGm(x: nat, y: nat, s: nat)
    requires x + y <= 2 * s
    ensures x * y <= s * s
  {
    var z := 2 * s - x;
    Dec.MulMono(y, z, x);
    assert x * z == s * s - (s - x) * (s - x);
    SquareNotNegative(s - x);
  }

  lemma SquareNotNegative(x: int)
    ensures 0 <= x * x
  {
  }

  /** A step never lands below the root. */
  lemma StepNotBelow(n: nat, s: nat, g: nat, q: nat)
    requires IsRoot(s, n) && n < (q + 1) * g
    ensures s <= (g + q) / 2
  {
    if g + q < 2 * s {
      AmGm(q + 1, g, s);
    }
  }

  /** From above the root, the distance to it is halved, up to one unit. */
  lemma StepHalves(n: nat, s: nat, g: nat, q: nat)
    requires IsRoot(s, n) && 1 <= s <= g && (q - 1) * g < n
    ensures (g + q) / 2 - s <= (g - s + 2) / 2
    ensures q <= s + 3
  {
    assert (s + 3) * s >= (s + 1) * (s + 1) && (s + 1) * (s + 2) >= (s + 1) * (s + 1);
    if g == s && q >= s + 4 {
      IntMono(s + 3, q - 1, s);
    } else if g > s && q >= s + 3 {
      IntMono(s + 2, q - 1, g);
      IntMono(s + 1, g, s + 2);
    }
  }

  lemma IntMono(x: int, y: int, z: nat)
    requires x <= y
    ensures x * z <= y * z
  {
  }

  /** Once the distance is about the square root of the root, one more step reaches the root or the integer after it. */
  lemma StepLands(n: nat, s: nat, g: nat, q: nat)
    requires IsRoot(s, n) && s <= g && (q - 1) * g < n
    requires (g - s) * (g - s) - 3 * (g - s) + 1 <= s
    ensures (g + q) / 2 <= s + 1
  {
    var e := g - s;
    assert (s + 3 - e) * (s + e) == s * s + 3 * s + 3 * e - e * e;
    assert (s + 1) * (s + 1) == s * s + 2 * s + 1;
    if q >= s + 4 - e {
      IntMono(s + 3 - e, q - 1, g);
    }
  }

  /** If a step changes the guess by at most one unit, the new guess squares to the number up to twice itself. */
  lemma SmallStepIsRoot(n: nat, g: nat, q: nat, r: int)
    requires 0 < g && (q - 1) * g < n < (q + 1) * g
    requires r == g + (q - g) / 2 && Abs(r - g) <= 1 && 0 < r
    ensures Abs(r * r - n) <= 2 * r + 3
  {
    var delta, t := r - g, q - g - 2 * (r - g);
    assert t == 0 || t == 1;
    assert Abs(q * g - n) < g by { assert (q - 1) * g == q * g - g && (q + 1) * g == q * g + g; }
    SquareOfNeighbour(g, delta, t, q, r);
  }

  lemma SquareOfNeighbour(g: int, delta: int, t: int, q: int, r: int)
    requires 0 <= g && r == g + delta && q == g + 2 * delta + t && Abs(delta) <= 1 && 0 <= t <= 1
    ensures -g <= r * r - q * g <= 1
  {
    assert q * g == g * g + 2 * delta * g + t * g;
    assert r * r == g * g + 2 * delta * g + delta * delta;
    assert delta * delta <= 1;
    assert t * g == 0 || t * g == g;
  }

  // ---------------------------------------------------------------- the loop


  /** The root of a positive decimal in range is neither tiny nor out of range itself. */
  lemma RootSize(d: nat, s: nat)
    requires 0 < d < LIMIT && IsRoot(s, d * ONE)
    ensures 100 <= s && 4 * s < LIMIT
  {
    if s < 100 {
      IntMono(s + 1, 100, s + 1);
    }
    LimitIsLarge();
    RootBelow(s, d, ONE, LIMIT);
  }

  lemma RootBelow(s: nat, d: nat, one: nat, lim: nat)
    requires s * s <= d * one && d < lim && 16 * one < lim
    ensures 4 * s < lim
  {
    if lim <= 4 * s {
      IntMono(d, 4 * s, one);
      assert 4 * s * one == 4 * one * s;
      if 4 * one < s {
        IntMono(4 * one + 1, s, s);
      }
    }
  }

  predicate CloseTo(r: int, n: nat) {
    0 < r && Abs(r * r - n) <= 2 * r + 3
  }

  /** The distance from the root is small enough for the next step to land. */
  predicate Landing(s: nat, g: nat)
    requires s <= g
  {
    (g - s) * (g - s) - 3 * (g - s) + 1 <= s
  }

  /** What the quotient guarantees, from the first guess or from any guess at or above the root. */
  lemma QuotientFacts(d: nat, s: nat, g: nat, q: int, r: int)
    requires 0 < d < LIMIT && IsRoot(s, d * ONE) && 0 < g && (s <= g || g == ONE)
    requires q == ChopRound(Scaled(d, g)) && r == (g + q) / 2
    ensures 0 <= q < LIMIT && s <= r
    ensures Abs(r - g) <= 1 ==> CloseTo(r, d * ONE)
    ensures g == ONE ==> q <= d
    ensures s <= g ==> r - s <= (g - s + 2) / 2
    ensures s <= g && Landing(s, g) ==> r <= s + 1
  {
    hide ChopRound, Scaled;
    var n := d * ONE;
    RootSize(d, s);
    QuotientNear(d, g);
    StepNotBelow(n, s, g, q);
    if g == ONE {
      assert q <= d;
    }
    if s <= g {
      StepHalves(n, s, g, q);
      if Landing(s, g) {
        StepLands(n, s, g, q);
      }
    }
    if Abs(r - g) <= 1 {
      SmallStepIsRoot(n, g, q, r);
    }
  }

  /** Everything one step guarantees, from the first guess or from any guess at or above the root. */
  lemma SqrtStep(d: nat, s: nat, g: nat)
    requires 0 < d < LIMIT && IsRoot(s, d * ONE) && 0 < g < LIMIT && (s <= g || g == ONE)
    ensures var step := NewtonStep(d, 2, g);
            && step.Some?
            && var (delta, g') := step.value;
               && g' == g + delta && s <= g' < LIMIT
               && (Abs(delta) <= 1 ==> CloseTo(g', d * ONE))
               && (g == ONE ==> g' <= d + ONE)
               && (s <= g ==> g' - s <= (g - s + 2) / 2)
               && (s <= g && Landing(s, g) ==> g' <= s + 1)
  {
    hide ChopRound, Scaled, IsRoot, CloseTo, Landing, Pow2;
    var q := ChopRound(Scaled(d, g));
    QuotientFacts(d, s, g, q, (g + q) / 2);
    assert QuoDec(d, g) == Some(q);
    assert g + (q - g) / 2 == (g + q) / 2;
  }

  /** Fourth powers of small numbers stay below the number whose root is sought. */
  lemma FourthPowerBelow(n: nat, a: nat, t: nat, p: nat)
    requires 0 < a <= t && a * p <= n && 81 * (t * t * t) <= p
    ensures (a + 2) * (a + 2) * ((a + 2) * (a + 2)) <= n
  {
    SquareOfSum(a);
    SquareMono((a + 2) * (a + 2), 9 * (a * a));
    Regroup(a);
    CubeMono(a, t);
    TimesAtMost(a, a * a * a, p);
  }

  lemma SquareOfSum(a: nat)
    requires 0 < a
    ensures (a + 2) * (a + 2) <= 9 * (a * a)
  {
    SquareMono(a + 2, 3 * a);
    assert 3 * a * (3 * a) == 9 * (a * a);
  }

  lemma TimesAtMost(a: nat, c: nat, p: nat)
    requires 81 * c <= p
    ensures 81 * (a * c) <= a * p
  {
    IntMono(81 * c, p, a);
    assert 81 * c * a == 81 * (a * c);
  }

  lemma SquareMono(x: nat, y: nat)
    requires x <= y
    ensures x * x <= y * y
  {
    IntMono(x, y, x);
    IntMono(x, y, y);
  }

  lemma Regroup(a: nat)
    ensures 9 * (a * a) * (9 * (a * a)) == 81 * (a * (a * a * a))
  {
    assert a * a * (a * a) == a * (a * a * a);
  }

  lemma CubeMono(a: nat, t: nat)
    requires a <= t
    ensures a * a * a <= t * t * t
  {
    SquareMono(a, t);
    IntMono(a * a, t * t, a);
    IntMono(a, t, t * t);
  }

  /** Why the fourth power of `a + 2` is at most `n`: `a` is at most `t`, and `n` has room for `a` times 81 cubes of `t`. */
  predicate FourthFits(n: nat, a: nat, t: nat, q: nat) {
    16 <= n && a <= t && a * q <= n && 81 * (t * t * t) <= q
  }

  /** A distance within three of a small number `a`, whose fourth power is below the number sought, is small enough to land. */
  lemma LandsAfterHalvings(n: nat, s: nat, g: nat, a: nat, t: nat, q: nat)
    requires IsRoot(s, n) && FourthFits(n, a, t, q) && s <= g <= s + a + 3
    ensures Landing(s, g)
  {
    hide IsRoot;
    FourthOrSixteen(n, a, t, q);
    LandsBelow(s, g - s, a, (a + 2) * (a + 2), n);
  }

  lemma QuotientTimes(d: nat, one: nat, p: nat, a: nat)
    requires 0 < p && a == d / p
    ensures a * (p * one) <= d * one
  {
    DivBounds(d, p, a);
    IntMono(a * p, d, one);
    assert a * (p * one) == a * p * one;
  }

  lemma FourthOrSixteen(n: nat, a: nat, t: nat, q: nat)
    requires 16 <= n && a <= t && a * q <= n && 81 * (t * t * t) <= q
    ensures (a + 2) * (a + 2) * ((a + 2) * (a + 2)) <= n
  {
    if a > 0 {
      FourthPowerBelow(n, a, t, q);
    }
  }

  lemma OneMoreAtMost(d: nat, one: nat, p: nat)
    requires one <= p && 0 < p
    ensures (d + one) / p <= d / p + 1
  {
    var q, r := (d + one) / p, d / p;
    DivBounds(d + one, p, q);
    DivBounds(d, p, r);
    assert (r + 2) * p == (r + 1) * p + p;
    if r + 2 <= q {
      IntMono(r + 2, q, p);
    }
  }

  /** The numbers behind the schedule: 225 halvings leave at most 2^90, whose fourth power is far below the bound. */
  lemma ScheduleFits(d: nat, p: nat, t: nat, a: nat, n: nat, q: nat)
    requires 0 < d < p * t && ONE <= p && 81 * (t * t * t) <= p * ONE
    requires a == d / p && n == d * ONE && q == p * ONE
    ensures FourthFits(n, a, t, q)
  {
    QuotientBelow(d, p, t);
    QuotientTimes(d, ONE, p, a);
  }

  lemma SchedulePowers(p: nat, t: nat)
    requires p == Pow2(225) && t == Pow2(90)
    ensures ONE <= p && 81 * (t * t * t) <= p * ONE && LIMIT == p * t
  {
    hide Pow2;
    Pow2Of64();
    Pow2Grows(64, 225);
    Pow2Adds(225, 90);
    Pow2Adds(90, 90);
    Pow2Adds(180, 90);
    Pow2Adds(225, 45);
    SmallPower();
    TimesFits(p, Pow2(45), t * t * t, ONE);
  }

  lemma TimesFits(p: nat, c: nat, cube: nat, one: nat)
    requires cube == p * c && 81 * c <= one
    ensures 81 * cube <= p * one
  {
    IntMono(81 * c, one, p);
    assert 81 * c * p == 81 * cube;
  }

  lemma SmallPower()
    ensures 81 * Pow2(45) <= ONE
  {
    assert Pow2(9) == 512;
    hide Pow2;
    Pow2Adds(9, 9);
    Pow2Adds(18, 18);
    Pow2Adds(36, 9);
  }

  lemma QuotientBelow(d: nat, p: nat, t: nat)
    requires d < p * t && 0 < p
    ensures d / p <= t
  {
    var q := d / p;
    DivBounds(d, p, q);
    if t < q {
      IntMono(t + 1, q, p);
    }
  }

  lemma LandsBelow(s: nat, e: nat, a: nat, w: nat, n: nat)
    requires IsRoot(s, n) && e <= a + 3 && w == (a + 2) * (a + 2) && w * w <= n
    ensures e * e - 3 * e + 1 <= s
  {
    RootReaches(s, w, n);
    DistanceBelow(e, a);
  }

  lemma RootReaches(s: nat, w: nat, n: nat)
    requires IsRoot(s, n) && w * w <= n
    ensures w <= s
  {
    if s < w {
      SquareMono(s + 1, w);
    }
  }

  lemma DistanceBelow(e: nat, a: nat)
    requires e <= a + 3
    ensures e * e - 3 * e + 1 <= (a + 2) * (a + 2)
  {
    assert e * e - 3 * e == (e - 3) * e;
    assert (a + 2) * (a + 2) == a * (a + 3) + a + 4;
    if e >= 3 {
      IntMono(e - 3, a, e);
      IntMono(e, a + 3, a);
    }
  }

  /** How close to the root the guess is after so many steps: 225 halvings, one landing, and one step that hardly moves. */
  predicate OnSchedule(d: nat, s: nat, g: nat, delta: int, iter: nat)
    requires s <= g
  {
    && 1 <= iter <= 228
    && (iter <= 226 ==> g - s <= (d + ONE) / Pow2(iter - 1) + 2)
    && (iter == 227 ==> g <= s + 1)
    && (iter == 228 ==> Abs(delta) <= 1)
  }

  lemma HalfBounds(e: nat, p: nat, q: nat, h: nat)
    requires q * p <= e < (q + 1) * p && 2 * h <= q <= 2 * h + 1
    ensures h * (2 * p) <= e < (h + 1) * (2 * p)
  {
    IntMono(2 * h, q, p);
    IntMono(q + 1, 2 * h + 2, p);
    assert h * (2 * p) == (2 * h) * p && (h + 1) * (2 * p) == (2 * h + 2) * p;
  }

  lemma HalfQuotient(e: nat, p: nat)
    requires 0 < p
    ensures e / (2 * p) == e / p / 2
  {
    var q := e / p;
    DivBounds(e, p, q);
    HalfBounds(e, p, q, q / 2);
    DivBounds(e, 2 * p, q / 2);
  }

  lemma HalvedAgain(e: nat, k: nat, x: int)
    requires x <= (e / Pow2(k) + 2 + 2) / 2
    ensures x <= e / Pow2(k + 1) + 2
  {
    HalfQuotient(e, Pow2(k));
  }

  lemma KeepsSchedule(d: nat, s: nat, g: nat, delta: int, iter: nat)
    requires 0 < d < LIMIT && IsRoot(s, d * ONE) && 0 < g < LIMIT && s <= g
    requires OnSchedule(d, s, g, delta, iter) && 1 < Abs(delta)
    ensures var step := NewtonStep(d, 2, g);
            && step.Some?
            && s <= step.value.1 < LIMIT && 0 < step.value.1
            && OnSchedule(d, s, step.value.1, step.value.0, iter + 1)
            && (Abs(step.value.0) <= 1 ==> CloseTo(step.value.1, d * ONE))
  {
    hide NewtonStep, CloseTo, Landing, Pow2, IsRoot;
    SqrtStep(d, s, g);
    RootSize(d, s);
    if iter <= 225 {
      HalvedAgain(d + ONE, iter - 1, NewtonStep(d, 2, g).value.1 - s);
    } else if iter == 226 {
      LandsOnSchedule(d, s, g);
    }
  }

  lemma LandsOnSchedule(d: nat, s: nat, g: nat)
    requires 0 < d < LIMIT && IsRoot(s, d * ONE) && s <= g && g - s <= (d + ONE) / Pow2(225) + 2
    ensures Landing(s, g)
  {
    hide Landing, Pow2, IsRoot;
    SchedulePowers(Pow2(225), Pow2(90));
    LandsWith(d, s, g, Pow2(225), Pow2(90), d * ONE);
  }

  lemma LandsWith(d: nat, s: nat, g: nat, p: nat, t: nat, n: nat)
    requires 0 < d < p * t && ONE <= p && 81 * (t * t * t) <= p * ONE && n == d * ONE
    requires IsRoot(s, n) && s <= g && g - s <= (d + ONE) / p + 2
    ensures Landing(s, g)
  {
    hide Landing, IsRoot, FourthFits;
    var a, q := d / p, p * ONE;
    OneMoreAtMost(d, ONE, p);
    ScheduleFits(d, p, t, a, n, q);
    LandsAfterHalvings(n, s, g, a, t, q);
  }

  /** From any point on schedule, the loop ends because a correction is at most one unit, never because it ran out of iterations. */
  lemma {:induction false} LoopConverges(d: nat, s: nat, g: nat, delta: int, iter: nat)
    requires 0 < d < LIMIT && IsRoot(s, d * ONE) && 0 < g < LIMIT && s <= g
    requires OnSchedule(d, s, g, delta, iter) && (Abs(delta) <= 1 ==> CloseTo(g, d * ONE))
    ensures var r := NewtonLoop(d, 2, g, delta, iter);
            r.Some? && Abs(r.value.1) <= 1 && CloseTo(r.value.0, d * ONE)
    decreases 228 - iter
  {
    hide NewtonStep, CloseTo, IsRoot;
    if Abs(delta) > 1 {
      KeepsSchedule(d, s, g, delta, iter);
      var step := NewtonStep(d, 2, g).value;
      LoopConverges(d, s, step.1, step.0, iter + 1);
    }
  }

  /** The integer square root. */
  function ISqrt(n: nat): (s: nat)
    ensures IsRoot(s, n)
  {
    if n == 0 then 0
    else
      var s := ISqrt(n - 1);
      if (s + 1) * (s + 1) <= n then s + 1 else s
  }

  /** A positive guess stays positive at every step. */
  lemma GuessStaysPositive(d: nat, g: nat)
    requires 0 < d && 0 < g
    ensures var step := NewtonStep(d, 2, g);
            step.Some? ==> 0 < step.value.1
  {
    hide ChopRound, Scaled;
    var q := ChopRound(Scaled(d, g));
    QuotientNear(d, g);
  }

  /**
    The square root of every positive decimal in range is found: no step overflows, the loop converges before its
    iteration limit, and the result, on the raw integers, satisfies |r * r - d * 10^18| <= 2 * r + 3.
   */
  lemma SqrtConverges(d: nat)
    requires 0 < d < LIMIT && d != ONE
    ensures var r := ApproxRoot(d, 2);
            r.Some? && 0 < r.value && Abs(r.value * r.value - d * ONE) <= 2 * r.value + 3
  {
    hide ApproxRoot, IsRoot, Pow2, ISqrt;
    SqrtFound(d, ISqrt(d * ONE));
  }

  lemma SqrtFound(d: nat, s: nat)
    requires 0 < d < LIMIT && d != ONE && IsRoot(s, d * ONE)
    ensures var r := ApproxRoot(d, 2);
            r.Some? && CloseTo(r.value, d * ONE)
  {
    hide NewtonStep, OnSchedule, IsRoot, CloseTo;
    StartsOnSchedule(d, s);
    var step := NewtonStep(d, 2, ONE).value;
    LoopConverges(d, s, step.1, step.0, 1);
  }

  lemma StartsOnSchedule(d: nat, s: nat)
    requires 0 < d < LIMIT && IsRoot(s, d * ONE)
    ensures var step := NewtonStep(d, 2, ONE);
            && step.Some? && s <= step.value.1 && 0 < step.value.1 < LIMIT
            && OnSchedule(d, s, step.value.1, step.value.0, 1)
            && (Abs(step.value.0) <= 1 ==> CloseTo(step.value.1, d * ONE))
  {
    hide NewtonStep, CloseTo, IsRoot;
    LimitIsLarge();
    SqrtStep(d, s, ONE);
    RootSize(d, s);
    assert Pow2(0) == 1 && (d + ONE) / 1 == d + ONE;
  }
}
