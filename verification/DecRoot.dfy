/** Roots of any degree: what one step of the iteration does, and what the result satisfies once corrections are small. */
module DecRoot {
  import opened Wrappers
  import opened Dec
  import opened DecPower
  import opened DecSqrt

  /** What the decimal is divided by: the guess to the power below the root's, or the smallest decimal instead of zero. */
  function Divisor(guess: int, root: nat): (p: Option<int>)
    requires 2 <= root
    ensures p != Some(0)
  {
    var p := if root == 2 then Some(guess) else Power(guess, root - 1);
    if p == Some(0) then Some(1) else p
  }

  /** Half a unit in a quotient is less than one. */
  lemma LessThanOneUnit(x: int, p: int)
    requires p != 0 && Abs(x) * ONE < Abs(p) * (HALF + 1)
    ensures Abs(x) < Abs(p)
  {
    if Abs(p) <= Abs(x) {
      Dec.MulMono(Abs(p), Abs(x), ONE);
    }
  }

  lemma TimesAbs(x: int, y: int)
    ensures Abs(x * y) == Abs(x) * Abs(y)
  {
  }

  /** A decimal quotient times its divisor is the dividend, up to less than one unit of the divisor. */
  lemma QuotientTimes(d: int, p: int)
    requires p != 0
    ensures Abs(ChopRound(Scaled(d, p)) * p - d * ONE) < Abs(p)
  {
    hide ChopRound, Scaled;
    var q := ChopRound(Scaled(d, p));
    QuoDecError(d, p);
    assert q * ONE * p - d * (ONE * ONE) == (q * p - d * ONE) * ONE;
    TimesAbs(q * p - d * ONE, ONE);
    LessThanOneUnit(q * p - d * ONE, p);
  }

  /** The correction times the root is the difference, up to less than the root. */
  lemma CorrectionTimes(diff: int, root: nat)
    requires 2 <= root < 0x8000_0000_0000_0000
    ensures var delta := if root == 2 then diff / 2 else Quo(diff, Int64(root));
            Abs(root * delta - diff) < root
  {
    if root != 2 {
      var a := Abs(diff) / root;
      assert Abs(diff) == root * a + Abs(diff) % root;
      var delta := Quo(diff, Int64(root));
      assert delta == if diff < 0 then -a else a;
      assert root * (-a) == -(root * a);
    }
  }

  lemma ErrorsCombine(e: int, p: int, x: int, root: nat)
    requires Abs(e) < root && Abs(x) < Abs(p)
    ensures Abs(e * p + x) < root * Abs(p)
  {
    TimesAbs(e, p);
    Dec.MulMono(Abs(e), root - 1, Abs(p));
    assert (root - 1) * Abs(p) == root * Abs(p) - Abs(p);
  }

  /** One step is Newton's for the equation "guess times divisor equals the decimal", up to less than one unit. */
  lemma StepIsNewton(d: int, root: nat, guess: int)
    requires 2 <= root < 0x8000_0000_0000_0000 && NewtonStep(d, root, guess).Some?
    ensures Divisor(guess, root).Some? && Divisor(guess, root).value != 0
    ensures var (delta, next) := NewtonStep(d, root, guess).value;
            var p := Divisor(guess, root).value;
            next == guess + delta && Abs(root * delta * p - (d * ONE - guess * p)) < root * Abs(p)
  {
    hide Power, ChopRound, Scaled, Quo, InRange;
    var p := Divisor(guess, root).value;
    var q := QuoDec(d, p).value;
    var (delta, next) := NewtonStep(d, root, guess).value;
    QuotientTimes(d, p);
    CorrectionTimes(q - guess, root);
    var e, x := root * delta - (q - guess), q * p - d * ONE;
    ErrorsCombine(e, p, x, root);
    Expand(root * delta, q, guess, p, d * ONE);
  }

  /** A step fails only because a value gets out of range: it never divides by zero. */
  lemma StepFailsIff(d: int, root: nat, guess: int)
    requires 2 <= root < 0x8000_0000_0000_0000
    ensures NewtonStep(d, root, guess).None? <==>
            var p := Divisor(guess, root);
            p.None? || var q := ChopRound(Scaled(d, p.value));
                       !InRange(q) || !InRange(q - guess) || !InRange(guess + if root == 2 then (q - guess) / 2 else Quo(q - guess, root))
  {
    hide Power, ChopRound, Scaled, Quo, InRange;
  }

  lemma Expand(c: int, q: int, g: int, p: int, n: int)
    ensures (c - (q - g)) * p + (q * p - n) == c * p - (n - g * p)
  {
  }

  /** `g` solves the equation up to twice the root, counted in units of its divisor. */
  predicate Solves(d: int, root: nat, g: int)
    requires 2 <= root
  {
    var p := Divisor(g, root);
    p.Some? && p.value != 0 && Abs(d * ONE - g * p.value) < 2 * root * Abs(p.value)
  }

  lemma SmallCorrection(d: int, root: nat, g: int)
    requires 2 <= root < 0x8000_0000_0000_0000 && NewtonStep(d, root, g).Some? && Abs(NewtonStep(d, root, g).value.0) <= 1
    ensures Solves(d, root, g) && Abs(NewtonStep(d, root, g).value.1 - g) <= 1
  {
    hide NewtonStep, Divisor;
    StepIsNewton(d, root, g);
    var delta, p := NewtonStep(d, root, g).value.0, Divisor(g, root).value;
    TimesAbs(root * delta, p);
    TimesAbs(root, delta);
    Dec.MulMono(Abs(delta), 1, root);
    Dec.MulMono(Abs(root * delta), root, Abs(p));
    assert 2 * root * Abs(p) == root * Abs(p) + root * Abs(p);
  }

  /** The loop ends where it started or with a last step. */
  lemma {:induction false} LoopEnds(d: int, root: nat, guess: int, delta: int, iter: nat)
    requires 2 <= root < 0x1_0000_0000_0000_0000 && NewtonLoop(d, root, guess, delta, iter).Some?
    ensures var r := NewtonLoop(d, root, guess, delta, iter).value;
            r == (guess, delta) || exists g :: NewtonStep(d, root, g) == Some((r.1, r.0))
    decreases MAX_ITERATIONS - iter
  {
    hide NewtonStep;
    if Abs(delta) > 1 && iter < MAX_ITERATIONS {
      var (delta', guess') := NewtonStep(d, root, guess).value;
      LoopEnds(d, root, guess', delta', iter + 1);
    }
  }

  /**
    Any root: if the last correction was at most one unit, the result is within one unit of a value that solves
    the equation. The last correction is the second part of what the loop ends with.
   */
  lemma RootSolves(d: nat, root: nat)
    requires 2 <= root < 0x8000_0000_0000_0000 && d != 0 && d != ONE && ApproxRoot(d, root).Some?
    ensures var r := NewtonLoop(d, root, ONE, ONE, 0);
            && r.Some? && ApproxRoot(d, root) == Some(r.value.0)
            && (Abs(r.value.1) <= 1 ==> exists g :: Solves(d, root, g) && Abs(r.value.0 - g) <= 1)
  {
    hide NewtonStep, NewtonLoop, Solves;
    LoopEnds(d, root, ONE, ONE, 0);
    var r := NewtonLoop(d, root, ONE, ONE, 0).value;
    if Abs(r.1) <= 1 {
      var g :| NewtonStep(d, root, g) == Some((r.1, r.0));
      SmallCorrection(d, root, g);
    }
  }

  /** Roots are odd, and the roots that need no iteration. */
  lemma RootEdges(d: int, root: nat)
    requires root < 0x1_0000_0000_0000_0000
    ensures var r, s := ApproxRoot(d, root), ApproxRoot(-d, root);
            (r.Some? <==> s.Some?) && (r.Some? ==> s.value == -r.value)
    ensures root == 1 || d == 0 || Abs(d) == ONE ==> ApproxRoot(d, root) == Some(d)
    ensures root == 0 && d != 0 ==> ApproxRoot(d, root) == Some(if d < 0 then -(ONE as int) else ONE)
  {
    hide NewtonLoop;
  }
}
