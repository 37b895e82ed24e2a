/** The mutating operations on decimals: each changes its receiver in place and says what it leaves there. */
module DecCode {
  import opened Wrappers
  import opened Bits
  import opened Dec
  import opened DecPower
  import opened DecSqrt

  /** `ok` is false where the source panics; the receiver has changed all the same. */
  class LegacyDec {
    var i: int

    constructor (i: int)
      ensures this.i == i
    {
      this.i := i;
    }

    /** The sign is taken off, and put back after rounding. */
    method ChopPrecisionAndRound()
      modifies this
      ensures i == ChopRound(old(i))
      decreases if i < 0 then 1 else 0
    {
      if i < 0 {
        i := -i;
        ChopPrecisionAndRound();
        i := -i;
        return;
      }
      var quo, rem := i / ONE, i % ONE;
      i := quo;
      if rem == 0 {
      } else if rem > HALF {
        i := quo + 1;
      } else if rem == HALF && quo % 2 != 0 {
        i := quo + 1;
      }
    }

    method ChopPrecisionAndTruncate()
      modifies this
      ensures i == ChopTruncate(old(i))
    {
      i := Quo(i, ONE);
    }

    method ChopPrecisionAndRoundUp()
      modifies this
      ensures i == ChopRoundUp(old(i))
    {
      if i < 0 {
        i := -i;
        ChopPrecisionAndTruncate();
        i := -i;
        return;
      }
      var quo, rem := i / ONE, i % ONE;
      i := if rem == 0 then quo else quo + 1;
    }

    method AddMut(d2: LegacyDec) returns (ok: bool)
      modifies this
      ensures i == old(i) + old(d2.i) && ok == InRange(i)
    {
      i := i + d2.i;
      ok := InRange(i);
    }

    method SubMut(d2: LegacyDec) returns (ok: bool)
      modifies this
      ensures i == old(i) - old(d2.i) && ok == InRange(i)
    {
      i := i - d2.i;
      ok := InRange(i);
    }

    /** The argument may be the receiver itself. */
    method MulMut(d2: LegacyDec) returns (ok: bool)
      modifies this
      ensures ok == Mul(old(i), old(d2.i)).Some?
      ensures i == ChopRound(old(i) * old(d2.i))
    {
      i := i * d2.i;
      ChopPrecisionAndRound();
      ok := InRange(i);
    }

    /** The raw quotient, still scaled by 10^18. */
    method DivideScaled(d2: LegacyDec) returns (ok: bool)
      modifies this
      ensures ok == (old(d2.i) != 0)
      ensures ok ==> i == Scaled(old(i), old(d2.i))
    {
      var divisor := d2.i;
      if divisor == 0 {
        return false;
      }
      i := i * (ONE * ONE);
      i := Quo(i, divisor);
      return true;
    }

    method QuoMut(d2: LegacyDec) returns (ok: bool)
      modifies this
      ensures ok == QuoDec(old(i), old(d2.i)).Some?
      ensures ok ==> Some(i) == QuoDec(old(i), old(d2.i))
    {
      hide Quo, ChopRound;
      ok := DivideScaled(d2);
      if ok {
        ChopPrecisionAndRound();
        ok := InRange(i);
      }
    }

    method QuoTruncateMut(d2: LegacyDec) returns (ok: bool)
      modifies this
      ensures ok == QuoTruncate(old(i), old(d2.i)).Some?
      ensures ok ==> Some(i) == QuoTruncate(old(i), old(d2.i))
    {
      ok := DivideScaled(d2);
      if ok {
        ChopPrecisionAndTruncate();
        ok := InRange(i);
      }
    }

    method QuoRoundupMut(d2: LegacyDec) returns (ok: bool)
      modifies this
      ensures ok == QuoRoundUp(old(i), old(d2.i)).Some?
      ensures ok ==> Some(i) == QuoRoundUp(old(i), old(d2.i))
    {
      ok := DivideScaled(d2);
      if ok {
        ChopPrecisionAndRoundUp();
        ok := InRange(i);
      }
    }

    /** Squares the receiver and collects the odd factors aside. */
    method PowerMut(power: nat) returns (ok: bool)
      modifies this
      ensures ok == Power(old(i), power).Some?
      ensures ok ==> Some(i) == Power(old(i), power)
    {
      hide ChopRound;
      if power == 0 {
        i := ONE;
        return true;
      }
      var tmp := new LegacyDec(ONE);
      var n := power;
      while n > 1
        invariant 1 <= n && fresh(tmp) && tmp != this
        invariant PowLoop(i, tmp.i, n) == Power(old(i), power)
        decreases n
      {
        if n % 2 != 0 {
          ok := tmp.MulMut(this);
          if !ok {
            return;
          }
        }
        n := n / 2;
        ok := this.MulMut(this);
        if !ok {
          return;
        }
      }
      ok := MulMut(tmp);
    }
  }

  /** One step of the root loop, on the cells `guess` and `delta`. */
  method ImproveGuess(d: int, root: nat, guess: LegacyDec, delta: LegacyDec) returns (ok: bool)
    requires guess != delta && 2 <= root < 0x1_0000_0000_0000_0000
    modifies guess, delta
    ensures ok == NewtonStep(d, root, old(guess.i)).Some?
    ensures ok ==> Some((delta.i, guess.i)) == NewtonStep(d, root, old(guess.i))
  {
    hide ChopRound, Scaled, PowLoop, Pow2;
    var prev := new LegacyDec(guess.i);
    if root != 2 {
      ok := prev.PowerMut(root - 1);
      if !ok {
        return;
      }
    }
    if prev.i == 0 {
      prev.i := 1;
    }
    delta.i := d;
    ok := delta.QuoMut(prev);
    if !ok {
      return;
    }
    ok := delta.SubMut(guess);
    if !ok {
      return;
    }
    if root == 2 {
      delta.i := delta.i / 2;
    } else {
      delta.i := Quo(delta.i, Int64(root));
    }
    ok := guess.AddMut(delta);
  }

  /** Newton's method from one, until a correction is at most one unit or the iterations run out. */
  method FindRoot(d: int, root: nat) returns (r: Option<int>)
    requires root < 0x1_0000_0000_0000_0000
    ensures r == ApproxRoot(d, root)
    decreases if d < 0 then 1 else 0
  {
    hide NewtonStep;
    if d < 0 {
      var abs := FindRoot(-d, root);
      return if abs.None? then None else Some(-abs.value);
    }
    if root == 1 || d == 0 || d == ONE {
      return Some(d);
    }
    if root == 0 {
      return Some(ONE);
    }
    var guess := new LegacyDec(ONE);
    var delta := new LegacyDec(ONE);
    var iter := 0;
    while Abs(delta.i) > 1 && iter < MAX_ITERATIONS
      invariant 0 <= iter <= MAX_ITERATIONS && fresh(guess) && fresh(delta) && guess != delta
      invariant NewtonLoop(d, root, guess.i, delta.i, iter) == NewtonLoop(d, root, ONE, ONE, 0)
      decreases MAX_ITERATIONS - iter
    {
      var ok := ImproveGuess(d, root, guess, delta);
      if !ok {
        return None;
      }
      iter := iter + 1;
    }
    return Some(guess.i);
  }
}
