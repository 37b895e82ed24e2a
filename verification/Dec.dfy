/**
  Decimals with 18 fractional digits over bounded integers: rounding, products and quotients. A decimal is
  held as its raw integer, the value scaled by 10^18.
 */
module Dec {
  import opened Wrappers
  import opened Bits

  const ONE: nat := 1_000_000_000_000_000_000
  const HALF: nat := 500_000_000_000_000_000

  /** A raw value of more than so many bits panics. */
  const MAX_BITS: nat := 315
  const LIMIT: nat := Pow2(MAX_BITS)

  function Abs(x: int): nat {
    if x < 0 then -x else x
  }

  predicate InRange(x: int) {
    Abs(x) < LIMIT
  }

  /** The range check of the source counts bits. */
  lemma InRangeIff(x: int)
    ensures InRange(x) <==> BitLen(Abs(x)) <= MAX_BITS
  {
    hide Pow2, BitLen;
    BitLenIff(Abs(x), MAX_BITS);
  }

  /** Integer quotient, truncated toward zero. */
  function Quo(a: int, b: int): int
    requires b != 0
  {
    if (a < 0) == (b < 0) then Abs(a) / Abs(b) else -(Abs(a) / Abs(b))
  }

  /** How large the bound is, as far as anything needs to know. */
  lemma LimitIsLarge()
    ensures 1_000_000_000_000_000_000_000_000_000_000_000_000 < LIMIT
  {
    Pow2Of64();
    Pow2Adds(64, 64);
    Pow2Grows(128, 315);
  }

  // ---------------------------------------------------------------- removing 18 digits

  /** Bankers' rounding: to the nearest, and to the even neighbour on a tie. */
  function ChopRound(d: int): int
    decreases if d < 0 then 1 else 0
  {
    if d < 0 then -ChopRound(-d)
    else
      var quo, rem := d / ONE, d % ONE;
      if rem < HALF then quo
      else if rem > HALF then quo + 1
      else if quo % 2 == 0 then quo
      else quo + 1
  }

  function ChopTruncate(d: int): int {
    Quo(d, ONE)
  }

  /** Up for positive values, toward zero for negative ones. */
  function ChopRoundUp(d: int): int {
    if d < 0 then -ChopTruncate(-d)
    else if d % ONE == 0 then d / ONE
    else d / ONE + 1
  }

  /** `r` is the integer nearest to `d / ONE`, and the even one if two are equally near. */
  predicate IsNearestEven(d: int, r: int) {
    Abs(r * ONE - d) <= HALF && (Abs(r * ONE - d) == HALF ==> r % 2 == 0)
  }

  lemma ChopRoundNear(d: int)
    ensures IsNearestEven(d, ChopRound(d))
    decreases if d < 0 then 1 else 0
  {
    if d < 0 {
      ChopRoundNear(-d);
    }
  }

  /** The rounding is what its name says, and there is no other such value. */
  lemma ChopRoundIsNearestEven(d: int, r: int)
    ensures IsNearestEven(d, ChopRound(d))
    ensures IsNearestEven(d, r) <==> r == ChopRound(d)
  {
    hide ChopRound;
    ChopRoundNear(d);
  }

  /** Rounding an exact multiple changes nothing. */
  lemma ChopRoundExact(q: int)
    ensures ChopRound(q * ONE) == q
  {
    ChopRoundIsNearestEven(q * ONE, q);
  }

  // ---------------------------------------------------------------- products and quotients

  /** `None` is the overflow panic. */
  function Checked(x: int): Option<int> {
    if InRange(x) then Some(x) else None
  }

  function Mul(a: int, b: int): Option<int> {
    Checked(ChopRound(a * b))
  }

  /** The numerator is scaled twice, divided with truncation, and 18 digits are removed afterwards. */
  function Scaled(a: int, b: int): int
    requires b != 0
  {
    Quo(a * (ONE * ONE), b)
  }

  /** Division by zero panics. */
  function QuoDec(a: int, b: int): Option<int> {
    if b == 0 then None else Checked(ChopRound(Scaled(a, b)))
  }

  function QuoTruncate(a: int, b: int): Option<int> {
    if b == 0 then None else Checked(ChopTruncate(Scaled(a, b)))
  }

  function QuoRoundUp(a: int, b: int): Option<int> {
    if b == 0 then None else Checked(ChopRoundUp(Scaled(a, b)))
  }

  lemma MulMono(x: nat, y: nat, z: nat)
    requires x <= y
    ensures x * z <= y * z
  {
  }

  lemma DivBounds(x: nat, y: nat, q: nat)
    requires 0 < y
    ensures q == x / y <==> q * y <= x < (q + 1) * y
  {
    var r := x / y;
    assert r * y <= x < (r + 1) * y;
    if q < r {
      MulMono(q + 1, r, y);
    } else if q > r {
      MulMono(r + 1, q, y);
    }
  }

  /** Two truncating divisions in a row are one. */
  lemma DoubleTruncation(x: nat, b: nat)
    requires 0 < b
    ensures x * ONE * ONE / b / ONE == x * ONE / b
  {
    var num := x * ONE * ONE;
    var q := num / b;
    var t := q / ONE;
    DivBounds(num, b, q);
    DivBounds(q, ONE, t);
    assert t * ONE * b <= q * b by { MulMono(t * ONE, q, b); }
    assert (q + 1) * b <= (t + 1) * ONE * b by { MulMono(q + 1, (t + 1) * ONE, b); }
    assert t * b * ONE <= x * ONE * ONE && x * ONE * ONE < (t + 1) * b * ONE;
    DivBounds(x * ONE, b, t);
  }

  lemma AbsMul(a: int, b: int)
    ensures Abs(a * b) == Abs(a) * Abs(b)
  {
  }

  lemma SignKept(a: int, k: nat)
    requires 0 < k
    ensures a * k < 0 <==> a < 0
    ensures Abs(a * k) == Abs(a) * k
  {
  }

  /** The scaled quotient by magnitude and sign. */
  lemma ScaledMagnitude(a: int, b: int)
    requires b != 0
    ensures var m := Abs(a) * ONE * ONE / Abs(b);
            Scaled(a, b) == if (a < 0) == (b < 0) then m else -m
  {
    SignKept(a, ONE * ONE);
  }

  lemma QuoMagnitude(a: int, b: int)
    requires b != 0
    ensures var t := Abs(a) * ONE / Abs(b);
            Quo(a * ONE, b) == if (a < 0) == (b < 0) then t else -t
  {
    SignKept(a, ONE);
  }

  lemma ChopTruncateMagnitude(m: int)
    requires 0 <= m
    ensures ChopTruncate(m) == m / ONE && ChopTruncate(-m) == -(m / ONE)
  {
  }

  /** Truncating division of decimals is exact truncation, although it truncates twice. */
  lemma QuoTruncateExact(a: int, b: int)
    requires b != 0
    ensures QuoTruncate(a, b) == Checked(Quo(a * ONE, b))
  {
    hide Scaled, Quo, Checked, ChopTruncate;
    DoubleTruncation(Abs(a), Abs(b));
    ScaledMagnitude(a, b);
    QuoMagnitude(a, b);
    ChopTruncateMagnitude(Abs(a) * ONE * ONE / Abs(b));
  }

  lemma QuoBounds(x: int, b: int)
    requires b != 0
    ensures Abs(Quo(x, b) * b - x) < Abs(b)
  {
    var q := Abs(x) / Abs(b);
    DivBounds(Abs(x), Abs(b), q);
    assert Abs(q * Abs(b) - Abs(x)) < Abs(b);
    assert Quo(x, b) == q || Quo(x, b) == -q;
    assert q * b == q * Abs(b) || q * b == -(q * Abs(b));
  }

  /** The rounded quotient is within half a unit, plus the 10^-18 of a unit lost by the first truncation, of the exact one. */
  lemma QuoDecError(a: int, b: int)
    requires b != 0
    ensures var r := ChopRound(Scaled(a, b));
            Abs(r * ONE * b - a * (ONE * ONE)) < Abs(b) * (HALF + 1)
  {
    hide ChopRound, Scaled;
    var q, x := Scaled(a, b), a * (ONE * ONE);
    var r := ChopRound(q);
    assert Abs(q * b - x) < Abs(b) by { ScaledBounds(a, b); }
    ChopRoundIsNearestEven(q, r);
    ErrorsAdd(r, ONE, q, HALF, b, x);
  }

  lemma ScaledBounds(a: int, b: int)
    requires b != 0
    ensures Abs(Scaled(a, b) * b - a * (ONE * ONE)) < Abs(b)
  {
    hide Quo;
    QuoBounds(a * (ONE * ONE), b);
  }

  lemma ErrorsAdd(r: int, one: nat, q: int, half: nat, b: int, x: int)
    requires Abs(r * one - q) <= half && Abs(q * b - x) < Abs(b)
    ensures Abs(r * one * b - x) < Abs(b) * (half + 1)
  {
    var e := r * one - q;
    AbsMul(e, b);
    MulMono(Abs(e), half, Abs(b));
    assert r * one * b == (e + q) * b == e * b + q * b;
    assert Abs(b) * (half + 1) == half * Abs(b) + Abs(b);
  }

  /** For quotients that are not negative, truncation, rounding and rounding up are ordered and at most one unit apart. */
  lemma QuotientsOrdered(a: int, b: int)
    requires b != 0 && 0 <= Scaled(a, b)
    ensures var q := Scaled(a, b);
            ChopTruncate(q) <= ChopRound(q) <= ChopRoundUp(q) <= ChopTruncate(q) + 1
  {
  }

  lemma ScaledOdd(a: int, b: int)
    requires b != 0
    ensures Scaled(-a, b) == -Scaled(a, b) && Scaled(a, -b) == -Scaled(a, b)
  {
    hide Scaled;
    ScaledMagnitude(a, b);
    ScaledMagnitude(-a, b);
    ScaledMagnitude(a, -b);
    var m := Abs(a) * ONE * ONE / Abs(b);
    assert Abs(-a) == Abs(a) && Abs(-b) == Abs(b);
    if a == 0 {
      assert m == 0;
    }
  }

  /** Under a change of sign, truncation and rounding are odd; rounding up of the negative quotient is truncation of the positive one. */
  lemma QuotientSigns(a: int, b: int)
    requires b != 0
    ensures var q := Scaled(a, b);
            && Scaled(-a, b) == -q && Scaled(a, -b) == -q
            && ChopTruncate(-q) == -ChopTruncate(q)
            && ChopRound(-q) == -ChopRound(q)
            && (0 <= q ==> ChopRoundUp(-q) == -ChopTruncate(q))
  {
    hide Scaled;
    ScaledOdd(a, b);
    var q := Scaled(a, b);
    assert ChopTruncate(-q) == -ChopTruncate(q);
  }

  /** The least integer at or above `x / y`. */
  function Ceiling(x: int, y: int): int
    requires y != 0
  {
    if y < 0 then -(x / -y) else -(-x / y)
  }

  /** The definition, spelled out. */
  lemma CeilingIsLeast(x: int, y: int)
    requires 0 < y
    ensures (Ceiling(x, y) - 1) * y < x <= Ceiling(x, y) * y && Ceiling(-x, -y) == Ceiling(x, y)
  {
    var q := -x / y;
    assert -x == q * y + -x % y;
    assert (-q - 1) * y == -(q * y) - y && -q * y == -(q * y);
  }

  lemma QuoRoundUpOfPositive(a: nat, b: nat)
    requires 0 < b
    ensures ChopRoundUp(Scaled(a, b)) == Ceiling(a * ONE, b) <==> Scaled(a, b) % ONE != 0 || a * ONE % b == 0
  {
    var q := Scaled(a, b);
    DoubleTruncation(a, b);
    assert q == a * ONE * ONE / b && q / ONE == a * ONE / b;
    CeilingOfPositive(a * ONE, b);
    if a * ONE % b == 0 {
      var t := a * ONE / b;
      assert a * ONE == t * b;
      assert a * ONE * ONE == t * ONE * b;
      DivBounds(a * ONE * ONE, b, t * ONE);
    }
  }

  lemma CeilingOfPositive(x: int, y: int)
    requires 0 <= x && 0 < y
    ensures Ceiling(x, y) == if x % y == 0 then x / y else x / y + 1
  {
    var q, r := x / y, x % y;
    assert x == q * y + r;
    if r == 0 {
      FloorIs(-x, y, -q, 0);
    } else {
      FloorIs(-x, y, -q - 1, y - r);
    }
  }

  lemma FloorIs(x: int, y: int, q: int, r: int)
    requires 0 < y && 0 <= r < y && x == q * y + r
    ensures x / y == q
  {
    var p := x / y;
    assert x == p * y + x % y;
    assert (p - q) * y == r - x % y;
    if p < q {
      SignedMono(p - q, -1, y);
    } else if q < p {
      SignedMono(1, p - q, y);
    }
  }

  lemma SignedMono(x: int, y: int, z: int)
    requires x <= y && 0 <= z
    ensures x * z <= y * z
  {
  }

  lemma QuoRoundUpOfNegative(a: nat, b: nat)
    requires 0 < b
    ensures ChopRoundUp(-Scaled(a, b)) == -(a * ONE / b) == Ceiling(-(a * ONE), b)
  {
    DoubleTruncation(a, b);
  }

  /**
    Rounding up is not always the ceiling of the exact quotient: the first division truncates. It is exactly when the
    quotient is negative, or that division leaves some of the 18 digits, or the quotient is a whole number of units.
   */
  lemma QuoRoundUpIsCeilingIff(a: int, b: int)
    requires b != 0
    ensures ChopRoundUp(Scaled(a, b)) == Ceiling(a * ONE, b) <==>
            (a < 0) != (b < 0) || Scaled(a, b) % ONE != 0 || Abs(a) * ONE % Abs(b) == 0
  {
    hide Scaled, ChopRoundUp;
    var m, n := Abs(a), Abs(b);
    QuoRoundUpOfPositive(m, n);
    QuoRoundUpOfNegative(m, n);
    ScaledMagnitude(a, b);
    ScaledMagnitude(m, n);
    SignKept(a, ONE);
    if (a < 0) == (b < 0) {
      assert Scaled(a, b) == Scaled(m, n);
      assert Ceiling(a * ONE, b) == Ceiling(m * ONE, n);
    } else {
      assert Ceiling(a * ONE, b) == Ceiling(-(m * ONE), n);
    }
  }

  /** A quotient that is just above a whole number of units and is not rounded up. */
  lemma QuoRoundUpMissesCeiling()
    ensures ChopRoundUp(Scaled(1, ONE * ONE * ONE)) == 0 && Ceiling(ONE, ONE * ONE * ONE) == 1
  {
  }
}
