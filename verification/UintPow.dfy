/** RelativePow: powers of unsigned integers on an arbitrary scale `b`, with overflow checks at every step. */
module UintPow {
  import opened Wrappers
  import opened Bits
  import opened Approx
  import Dec
  import DecPower

  const BOUND: nat := Pow2(256)
  const ROOT: nat := Pow2(128)

  /** `None` is the panic of an operation that reaches the bound `lim` or divides by zero. */
  function UMul(x: nat, y: nat, lim: nat): Option<nat> {
    if x * y < lim then Some(x * y) else None
  }

  function UAdd(x: nat, y: nat, lim: nat): Option<nat> {
    if x + y < lim then Some(x + y) else None
  }

  function UQuo(x: nat, y: nat): Option<nat> {
    if y == 0 then None else Some(x / y)
  }

  /** A product brought back to the scale: half of the scale is added before the division. */
  function ScaledMul(x: nat, y: nat, b: nat, lim: nat): Option<nat> {
    var product := UMul(x, y, lim);
    if product.None? then None
    else
      var rounded := UAdd(product.value, b / 2, lim);
      if rounded.None? then None else UQuo(rounded.value, b)
  }

  /** Two range checks and a division amount to one range check, on the bits of the product with the half added. */
  lemma ScaledMulIff(x: nat, y: nat, b: nat)
    ensures ScaledMul(x, y, b, BOUND) ==
            if b != 0 && BitLen(x * y + b / 2) <= 256 then Some((x * y + b / 2) / b) else None
  {
    hide Pow2, BitLen;
    BitLenIff(x * y + b / 2, 256);
  }

  /** The squaring loop: `x` is squared first, then multiplied in if the bit is set. */
  function RelLoop(x: nat, z: nat, n: nat, b: nat, lim: nat): Option<nat>
    decreases n
  {
    if n == 0 then Some(z)
    else
      var x' := ScaledMul(x, x, b, lim);
      if x'.None? then None
      else
        var z' := if n % 2 == 1 then ScaledMul(z, x'.value, b, lim) else Some(z);
        if z'.None? then None else RelLoop(x'.value, z'.value, n / 2, b, lim)
  }

  function RelativePow(x: nat, n: nat, b: nat): Option<nat>
  {
    if x == 0 then Some(if n == 0 then b else 0)
    else RelLoop(x, if n % 2 == 0 then b else x, n / 2, b, BOUND)
  }

  /** The loop of the source, on its own variables; `None` as soon as a step panics. */
  method ComputeRelativePow(x0: nat, n0: nat, b: nat) returns (r: Option<nat>)
    ensures r == RelativePow(x0, n0, b)
  {
    hide ScaledMul;
    if x0 == 0 {
      return Some(if n0 == 0 then b else 0);
    }
    var x: nat, z: nat, n: nat := x0, if n0 % 2 == 0 then b else x0, n0 / 2;
    while n > 0
      invariant RelLoop(x, z, n, b, BOUND) == RelativePow(x0, n0, b)
      decreases n
    {
      var squared := ScaledMul(x, x, b, BOUND);
      if squared.None? {
        return None;
      }
      x := squared.value;
      if n % 2 == 1 {
        var product := ScaledMul(z, x, b, BOUND);
        if product.None? {
          return None;
        }
        z := product.value;
      }
      n := n / 2;
    }
    return Some(z);
  }

  // ---------------------------------------------------------------- the scaled power

  lemma ScaledMulRounds(x: nat, y: nat, b: nat, lim: nat)
    requires 0 < b && b * b + b < lim && x <= b && y <= b
    ensures var c := ScaledMul(x, y, b, lim);
            c.Some? && RoundedProduct(b, x, y, c.value)
  {
    var v := x * y;
    ProductInScale(b, x, y);
    HalfAddedRounds(v, b);
  }

  lemma HalfAddedRounds(v: nat, b: nat)
    requires 0 < b
    ensures var c := (v + b / 2) / b;
            2 * (c * b) <= 2 * v + b && 2 * v <= 2 * (c * b) + b
  {
    var c := (v + b / 2) / b;
    Dec.DivBounds(v + b / 2, b, c);
    assert (c + 1) * b == c * b + b;
  }

  lemma SquareFits(b: nat)
    requires b < ROOT
    ensures b * b + b < BOUND
  {
    hide Pow2;
    Pow2Adds(128, 128);
    NextSquare(b, ROOT);
  }

  lemma NextSquare(b: nat, root: nat)
    requires b < root
    ensures b * b + b < root * root
  {
    IntScaleLe(b + 1, root, b);
    IntScaleLe(b + 1, root, root);
  }

  lemma ScaledMulStands(z: nat, x: nat, b: nat, lim: nat, q: real, m: nat, n: nat)
    requires 0 < b && b * b + b < lim && Unit(q) && 0 < n
    requires Stands(b, z, q, m) && Stands(b, x, q, n) && (m == 0 ==> z == b)
    ensures var c := ScaledMul(z, x, b, lim);
            c.Some? && Stands(b, c.value, q, m + n)
  {
    ScaledMulRounds(z, x, b, lim);
    hide RPow, Times, ScaledMul;
    var c := ScaledMul(z, x, b, lim).value;
    if m == 0 {
      OneTimes(b, x, c);
    } else {
      ProductStands(b, z, x, c, q, m, n);
    }
  }

  /** Multiplying by the scale itself is exact. */
  lemma OneTimes(b: nat, x: nat, c: nat)
    requires 0 < b && c == (b * x + b / 2) / b
    ensures c == x
  {
    Dec.DivBounds(b * x + b / 2, b, x);
  }

  lemma {:induction false} RelLoopStands(x: nat, z: nat, n: nat, b: nat, lim: nat, q: real, k: nat, m: nat)
    requires 0 < b && b * b + b < lim && Unit(q) && 0 < k
    requires Stands(b, x, q, k) && Stands(b, z, q, m) && (m == 0 ==> z == b)
    ensures var r := RelLoop(x, z, n, b, lim);
            r.Some? && Stands(b, r.value, q, DecPower.Exponent(n, 2 * k, m))
    decreases n
  {
    hide ScaledMul, Stands;
    if n > 0 {
      ScaledMulStands(x, x, b, lim, q, k, k);
      var x', z', m' := ScaledMul(x, x, b, lim).value, z, m;
      if n % 2 == 1 {
        ScaledMulStands(z, x', b, lim, q, m, 2 * k);
        z', m' := ScaledMul(z, x', b, lim).value, m + 2 * k;
      }
      DecPower.HalveExponent(n, 2 * k, m);
      RelLoopStands(x', z', n / 2, b, lim, q, 2 * k, m');
    }
  }

  /**
    On a scale below 2^128, a value between zero and one raised to any power never overflows, stays on the scale,
    and is within (n - 1) / 2 units of the exact power; the zeroth power is exact.
   */
  lemma RelativePowError(x: nat, n: nat, b: nat)
    requires 0 < x <= b < ROOT
    ensures var r := RelativePow(x, n, b);
            && r.Some? && r.value <= b
            && Within(r.value as real, Times(b as real, RPow(Fraction(b, x), n)), Slack(n))
  {
    hide RelLoop, Times;
    var q := Fraction(b, x);
    FirstPowersStand(b, x, q);
    SquareFits(b);
    if n % 2 == 0 {
      RelLoopStands(x, b, n / 2, b, BOUND, q, 1, 0);
      assert n / 2 * (2 * 1) + 0 == n;
    } else {
      RelLoopStands(x, x, n / 2, b, BOUND, q, 1, 1);
    }
  }

  // ---------------------------------------------------------------- the unit scale

  function IPow(x: nat, n: nat): nat {
    if n == 0 then 1 else x * IPow(x, n - 1)
  }

  lemma {:induction false} IPowPositive(x: nat, n: nat)
    requires 1 <= x
    ensures 1 <= IPow(x, n)
  {
    if n > 0 {
      IPowPositive(x, n - 1);
      IntScaleLe(1, x, IPow(x, n - 1));
    }
  }

  lemma {:induction false} IPowOfSquare(x: nat, h: nat)
    ensures IPow(x * x, h) == IPow(x, 2 * h)
  {
    if h > 0 {
      IPowOfSquare(x, h - 1);
      assert IPow(x, 2 * h) == x * (x * IPow(x, 2 * h - 2));
      assert x * (x * IPow(x, 2 * h - 2)) == x * x * IPow(x, 2 * h - 2);
    }
  }

  /** On the unit scale a product is the plain product. */
  lemma PlainMul(x: nat, y: nat, lim: nat)
    ensures ScaledMul(x, y, 1, lim) == UMul(x, y, lim)
  {
  }

  lemma ProductGrows(x: nat, y: nat)
    requires 1 <= y
    ensures x <= x * y && x <= y * x
  {
  }

  lemma {:induction false} RelLoopExact(x: nat, z: nat, n: nat, lim: nat)
    requires 1 <= x && 1 <= z < lim
    ensures var p := z * IPow(x * x, n);
            RelLoop(x, z, n, 1, lim) == if p < lim then Some(p) else None
    decreases n
  {
    hide ScaledMul;
    if n > 0 {
      var y, h := x * x, n / 2;
      PlainMul(x, x, lim);
      ProductGrows(x, x);
      SplitPower(y, z, n);
      IPowPositive(y * y, h);
      IPowPositive(y, n - 1);
      ProductGrows(y, IPow(y, n - 1));
      ProductGrows(IPow(y, n), z);
      if y < lim {
        PlainMul(z, y, lim);
        ProductGrows(z, y);
        if n % 2 == 1 {
          ProductGrows(z * y, IPow(y * y, h));
          if z * y < lim {
            RelLoopExact(y, z * y, h, lim);
          }
        } else {
          RelLoopExact(y, z, h, lim);
        }
      }
    }
  }

  lemma SplitPower(y: nat, z: nat, n: nat)
    requires 0 < n
    ensures z * IPow(y, n) == (if n % 2 == 1 then z * y else z) * IPow(y * y, n / 2)
  {
    var h := n / 2;
    IPowOfSquare(y, h);
    if n % 2 == 1 {
      assert IPow(y, n) == y * IPow(y, 2 * h);
      assert z * (y * IPow(y, 2 * h)) == z * y * IPow(y, 2 * h);
    }
  }

  /** On the unit scale the result is the exact integer power, and it panics exactly when that does not fit in 256 bits. */
  lemma RelativePowUnitScale(x: nat, n: nat)
    requires x < BOUND
    ensures RelativePow(x, n, 1) == if IPow(x, n) < BOUND then Some(IPow(x, n)) else None
  {
    hide Pow2, RelLoop;
    Pow2Of64();
    Pow2Grows(64, 256);
    if x > 0 {
      var z := if n % 2 == 0 then 1 else x;
      RelLoopExact(x, z, n / 2, BOUND);
      SplitPower(x, 1, n + 2);
      IPowOfSquare(x, n / 2);
    }
  }
}
