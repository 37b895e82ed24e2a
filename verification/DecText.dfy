/** Decimals as text: printing, parsing, and bytes that sort like the decimals they stand for. */
module DecText {
  import opened Wrappers
  import opened Dec

  const PRECISION: nat := 18

  datatype ParseError = Empty | InvalidLength | InvalidString | TooPrecise | NotANumber | OutOfRange
  type Parsed<T> = Result<T, ParseError>

  // ---------------------------------------------------------------- digits

  predicate IsDigit(c: char) {
    '0' <= c <= '9'
  }

  function Digit(n: nat): char
    requires n < 10
  {
    '0' + n as char
  }

  function DigitValue(c: char): nat
    requires IsDigit(c)
  {
    (c - '0') as nat
  }

  predicate AllDigits(s: string) {
    forall i :: 0 <= i < |s| ==> IsDigit(s[i])
  }

  /** The decimal numeral of a number, without leading zeros. */
  function Digits(n: nat): (s: string)
    ensures 1 <= |s| && AllDigits(s)
  {
    if n < 10 then [Digit(n)] else Digits(n / 10) + [Digit(n % 10)]
  }

  function Value(s: string): nat
    requires AllDigits(s)
  {
    if s == [] then 0 else 10 * Value(s[..|s| - 1]) + DigitValue(s[|s| - 1])
  }

  function ZeroDigits(n: nat): (s: string)
    ensures |s| == n && forall i :: 0 <= i < n ==> s[i] == '0'
  {
    if n == 0 then [] else ZeroDigits(n - 1) + ['0']
  }

  lemma ZeroDigitsAre(n: nat, s: string)
    requires |s| == n && forall i :: 0 <= i < n ==> s[i] == '0'
    ensures s == ZeroDigits(n)
  {
  }

  lemma {:induction false} ValueOfDigits(n: nat)
    ensures Value(Digits(n)) == n
  {
    if n < 10 {
      assert Value([Digit(n)][..0]) == 0;
    } else {
      ValueOfDigits(n / 10);
      assert Digits(n)[..|Digits(n)| - 1] == Digits(n / 10);
    }
  }

  lemma {:induction false} LeadingZeros(k: nat, s: string)
    requires AllDigits(s)
    ensures AllDigits(ZeroDigits(k) + s) && Value(ZeroDigits(k) + s) == Value(s)
    decreases k, |s|
  {
    if s == [] {
      if k > 0 {
        LeadingZeros(k - 1, []);
        assert ZeroDigits(k - 1) + [] == ZeroDigits(k - 1);
        assert ZeroDigits(k)[..k - 1] == ZeroDigits(k - 1);
      }
      assert ZeroDigits(k) + [] == ZeroDigits(k);
    } else {
      var front := s[..|s| - 1];
      LeadingZeros(k, front);
      assert (ZeroDigits(k) + s)[..k + |s| - 1] == ZeroDigits(k) + front;
    }
  }

  // ---------------------------------------------------------------- printing

  /** The digits of a magnitude with a point before the last eighteen. */
  function PointedText(n: nat): string {
    var bz := Digits(n);
    if |bz| <= PRECISION then "0." + ZeroDigits(PRECISION - |bz|) + bz
    else bz[..|bz| - PRECISION] + "." + bz[|bz| - PRECISION..]
  }

  function DecString(d: int): string {
    if d < 0 then "-" + PointedText(-d) else PointedText(d)
  }

  // ---------------------------------------------------------------- parsing

  /** The pieces between the points; there is always at least one. */
  function Split(s: string): (parts: seq<string>)
    ensures 1 <= |parts|
  {
    if s == [] then [[]]
    else
      var rest := Split(s[1..]);
      if s[0] == '.' then [[]] + rest else [[s[0]] + rest[0]] + rest[1..]
  }

  /** Reading a base-ten integer: an optional sign and at least one digit. */
  function SetString(s: string): Option<int> {
    var signed := s != [] && (s[0] == '-' || s[0] == '+');
    var digits := if signed then s[1..] else s;
    if digits == [] || !AllDigits(digits) then None
    else Some(if signed && s[0] == '-' then -(Value(digits) as int) else Value(digits))
  }

  /** What is left once a minus sign has been taken off. */
  function ParseMagnitude(s: string): Parsed<int> {
    var strs := Split(s);
    if |strs| > 2 then Err(InvalidString)
    else
      var lenDecs := if |strs| == 2 then |strs[1]| else 0;
      if |strs| == 2 && (lenDecs == 0 || strs[0] == []) then Err(InvalidLength)
      else if lenDecs > PRECISION then Err(TooPrecise)
      else
        var combined := strs[0] + (if |strs| == 2 then strs[1] else []) + ZeroDigits(PRECISION - lenDecs);
        match SetString(combined)
        case None => Err(NotANumber)
        case Some(v) => if InRange(v) then Ok(v) else Err(OutOfRange)
  }

  function ParseDec(str: string): Parsed<int> {
    var neg := str != [] && str[0] == '-';
    var s := if neg then str[1..] else str;
    if s == [] then Err(Empty)
    else match ParseMagnitude(s)
      case Err(e) => Err(e)
      case Ok(v) => Ok(if neg then -v else v)
  }

  // ---------------------------------------------------------------- which texts are read, and as what

  function Pow10(k: nat): nat {
    if k == 0 then 1 else 10 * Pow10(k - 1)
  }

  lemma Pow10Of18()
    ensures Pow10(18) == ONE
  {
    assert Pow10(6) == 1_000_000;
    assert Pow10(12) == 1_000_000 * Pow10(6);
    assert Pow10(18) == 1_000_000 * Pow10(12);
  }

  lemma OneMoreZero(s: string)
    requires AllDigits(s)
    ensures AllDigits(s + ['0']) && Value(s + ['0']) == 10 * Value(s)
  {
    assert (s + ['0'])[..|s|] == s;
  }

  lemma {:induction false} TrailingZeros(s: string, k: nat)
    requires AllDigits(s)
    ensures AllDigits(s + ZeroDigits(k)) && Value(s + ZeroDigits(k)) == Value(s) * Pow10(k)
  {
    hide Value;
    if k == 0 {
      assert s + ZeroDigits(0) == s;
    } else {
      TrailingZeros(s, k - 1);
      OneMoreZero(s + ZeroDigits(k - 1));
      assert s + ZeroDigits(k) == s + ZeroDigits(k - 1) + ['0'];
      assert 10 * (Value(s) * Pow10(k - 1)) == Value(s) * (10 * Pow10(k - 1));
    }
  }

  /** The text up to the first point is the first piece. */
  lemma {:induction false} SplitAtPoint(left: string, right: string)
    requires '.' !in left
    ensures Split(left + "." + right) == [left] + Split(right)
  {
    var s := left + "." + right;
    if left == [] {
      assert s[1..] == right;
    } else {
      assert s[1..] == left[1..] + "." + right;
      SplitAtPoint(left[1..], right);
      assert [left[0]] + left[1..] == left;
    }
  }

  lemma {:induction false} SplitWhole(s: string)
    requires '.' !in s
    ensures Split(s) == [s]
  {
    if s != [] {
      SplitWhole(s[1..]);
      assert [s[0]] + s[1..] == s;
    }
  }

  lemma {:induction false} FirstPoint(s: string) returns (left: string, right: string)
    requires '.' in s
    ensures '.' !in left && s == left + "." + right
  {
    if s[0] == '.' {
      left, right := "", s[1..];
    } else {
      left, right := FirstPoint(s[1..]);
      left := [s[0]] + left;
    }
  }

  /** A numeral: perhaps a sign, whole digits, and perhaps a point and decimals. */
  datatype Numeral = Numeral(sign: string, whole: string, decimals: Option<string>)
  {
    function Decimals(): string {
      if decimals.Some? then decimals.value else ""
    }

    function Text(): string {
      sign + whole + if decimals.Some? then "." + decimals.value else ""
    }

    /** Something stands before the point, at least one decimal and no more than eighteen behind it. */
    predicate Readable() {
      && (sign == "" || sign == "+" || sign == "-") && sign + whole != ""
      && AllDigits(whole) && AllDigits(Decimals()) && |Decimals()| <= PRECISION
      && (decimals.Some? ==> decimals.value != "")
    }

    /** The number written, in units of the last of eighteen decimals. */
    function Meaning(): int
      requires Readable()
    {
      var magnitude := Value(whole + Decimals()) * Pow10(PRECISION - |Decimals()|);
      if sign == "-" then -magnitude else magnitude
    }
  }

  function Ranged(v: int): Parsed<int> {
    if InRange(v) then Ok(v) else Err(OutOfRange)
  }

  /** A sign in front of digits is taken off again. */
  lemma SetSigned(sign: string, digits: string)
    requires (sign == "" || sign == "+" || sign == "-") && AllDigits(digits) && digits != []
    ensures SetString(sign + digits) == Some(if sign == "-" then -(Value(digits) as int) else Value(digits))
  {
    hide Value;
    if sign == "" {
      assert sign + digits == digits;
    } else {
      assert (sign + digits)[1..] == digits;
    }
  }

  lemma ReadMagnitude(n: Numeral)
    requires n.Readable()
    ensures n.Text() != [] && ParseMagnitude(n.Text()) == Ranged(n.Meaning())
  {
    hide Value, Split, SetString, InRange, Pow10;
    var front, digits, zeros := n.sign + n.whole, n.whole + n.Decimals(), ZeroDigits(PRECISION - |n.Decimals()|);
    if n.decimals.Some? {
      assert n.Text() == front + "." + n.decimals.value;
      SplitAtPoint(front, n.decimals.value);
      SplitWhole(n.decimals.value);
    } else {
      assert n.Text() == front;
      SplitWhole(front);
    }
    assert front + n.Decimals() + zeros == n.sign + (digits + zeros);
    TrailingZeros(digits, |zeros|);
    SetSigned(n.sign, digits + zeros);
  }

  /** Text before a point, or text without one, that is read as a number with `more` behind it. */
  lemma ReadFront(front: string, more: string, zeros: nat) returns (sign: string, whole: string)
    requires SetString(front + more + ZeroDigits(zeros)).Some? && front != []
    ensures sign == "" || sign == "+" || sign == "-"
    ensures front == sign + whole && AllDigits(whole) && AllDigits(more)
  {
    hide Value;
    var s := front + more + ZeroDigits(zeros);
    if s[0] == '-' || s[0] == '+' {
      sign, whole := front[..1], front[1..];
      assert s[1..] == whole + more + ZeroDigits(zeros);
    } else {
      sign, whole := "", front;
    }
    var digits := whole + more + ZeroDigits(zeros);
    assert forall i :: 0 <= i < |whole| ==> whole[i] == digits[i];
    assert forall i :: 0 <= i < |more| ==> more[i] == digits[|whole| + i];
  }

  /** Only readable numerals get as far as the range check. */
  lemma MagnitudeIsRead(s: string) returns (n: Numeral)
    requires s != [] && (ParseMagnitude(s).Ok? || ParseMagnitude(s) == Err(OutOfRange))
    ensures n.Readable() && n.Text() == s
  {
    hide Value, Split, SetString, InRange;
    if '.' in s {
      var left, right := FirstPoint(s);
      SplitAtPoint(left, right);
      assert Split(s) == [left, Split(right)[0]];
      if '.' in right {
        var l, r := FirstPoint(right);
        SplitAtPoint(l, r);
        assert false;
      }
      SplitWhole(right);
      var sign, whole := ReadFront(left, right, PRECISION - |right|);
      n := Numeral(sign, whole, Some(right));
    } else {
      SplitWhole(s);
      assert s + [] == s;
      var sign, whole := ReadFront(s, "", PRECISION);
      n := Numeral(sign, whole, None);
    }
  }

  function Signed(minus: bool, n: Numeral): string {
    if minus then "-" + n.Text() else n.Text()
  }

  /** A numeral after the minus sign that is taken off first; without one, its own sign is no minus. */
  predicate Accepted(minus: bool, n: Numeral) {
    n.Readable() && (minus || n.sign != "-")
  }

  /** Every numeral is read as what it says, or is out of range, with one to eighteen decimals or none. */
  lemma ParseReads(minus: bool, n: Numeral)
    requires Accepted(minus, n)
    ensures ParseDec(Signed(minus, n)) == Ranged(if minus then -n.Meaning() else n.Meaning())
  {
    hide ParseMagnitude, Value, Pow10;
    ReadMagnitude(n);
    if minus {
      assert ("-" + n.Text())[1..] == n.Text();
    } else {
      assert n.Text()[0] != '-';
    }
  }

  /** Nothing else is: a text is read, or found out of range, exactly if it is a numeral. */
  lemma ParseAcceptsIff(str: string)
    ensures ParseDec(str).Ok? || ParseDec(str) == Err(OutOfRange) <==>
            exists minus, n :: Accepted(minus, n) && Signed(minus, n) == str
  {
    hide ParseMagnitude, InRange;
    if ParseDec(str).Ok? || ParseDec(str) == Err(OutOfRange) {
      var minus := str != [] && str[0] == '-';
      var n := MagnitudeIsRead(if minus then str[1..] else str);
      assert Accepted(minus, n) && Signed(minus, n) == str;
    }
    forall minus, n | Accepted(minus, n) && Signed(minus, n) == str
      ensures ParseDec(str).Ok? || ParseDec(str) == Err(OutOfRange)
    {
      ParseReads(minus, n);
    }
  }

  /** What is parsed once a first minus sign is off. */
  lemma PastMinus(minus: bool, s: string)
    requires minus || s == [] || s[0] != '-'
    ensures var r := ParseDec(if minus then "-" + s else s);
            if s == [] then r == Err(Empty) else r.Ok? == ParseMagnitude(s).Ok? && (r.Err? ==> r == ParseMagnitude(s))
  {
    hide ParseMagnitude;
    assert ("-" + s)[1..] == s;
  }

  /** How texts with points are refused; `front` and `behind` hold none. */
  lemma ParseErrors(minus: bool, front: string, behind: string, more: string)
    requires '.' !in front && '.' !in behind && (minus || front == [] || front[0] != '-')
    ensures var one, two := front + "." + behind, front + "." + (behind + "." + more);
            var r := ParseDec(if minus then "-" + one else one);
            && ParseDec(if minus then "-" + two else two) == Err(InvalidString)
            && (r == Err(InvalidLength) <==> front == [] || behind == [])
            && (r == Err(TooPrecise) <==> front != [] && |behind| > PRECISION)
            && r != Err(InvalidString) && r != Err(Empty)
  {
    hide SetString, Split, ParseDec, InRange;
    PastMinus(minus, front + "." + behind);
    PastMinus(minus, front + "." + (behind + "." + more));
    SplitAtPoint(front, behind + "." + more);
    SplitAtPoint(behind, more);
    SplitAtPoint(front, behind);
    SplitWhole(behind);
  }

  /** How texts without a point are: only for having no digit where one should be. */
  lemma WholeErrors(minus: bool, s: string)
    requires '.' !in s && (minus || s == [] || s[0] != '-')
    ensures var r := ParseDec(if minus then "-" + s else s);
            (r == Err(Empty) <==> s == []) && (r.Err? ==> r.error in {Empty, NotANumber, OutOfRange})
  {
    hide SetString, Split, ParseDec, InRange;
    PastMinus(minus, s);
    SplitWhole(s);
  }

  /** The documented form: perhaps a minus sign, whole digits, perhaps a point and decimals. */
  ghost predicate Documented(str: string) {
    exists minus, n: Numeral :: Accepted(minus, n) && n.sign == "" && Signed(minus, n) == str
  }

  /** The code reads more than that: exactly the texts with a sign where the whole digits should start. */
  lemma DocumentedIff(minus: bool, n: Numeral)
    requires Accepted(minus, n)
    ensures Documented(Signed(minus, n)) <==> n.sign == ""
  {
    var str := Signed(minus, n);
    if n.sign != "" {
      assert n.Text()[0] == n.sign[0];
      forall m, k: Numeral | Accepted(m, k) && k.sign == ""
        ensures Signed(m, k) != str
      {
        assert k.Text()[0] == k.whole[0] && IsDigit(k.whole[0]);
        assert m ==> Signed(m, k)[1] == k.Text()[0];
        assert minus ==> str[1] == n.Text()[0];
      }
    }
  }

  lemma UnitsInRange()
    ensures InRange(ONE) && InRange(0)
  {
    LimitIsLarge();
  }

  /** So a second sign is read, and a sign alone is zero. */
  lemma SignsRead()
    ensures ParseDec("--1") == Ok(ONE) && ParseDec("+") == Ok(0)
  {
    hide ParseDec, InRange, Pow10;
    var one, zero := Numeral("-", "1", None), Numeral("+", "", None);
    assert Value("1") == 1 by { assert "1"[..0] == ""; }
    assert one.whole + one.Decimals() == "1" && zero.whole + zero.Decimals() == "";
    UnitsInRange();
    Pow10Of18();
    assert one.Text() == "-1" && zero.Text() == "+";
    ParseReads(true, one);
    ParseReads(false, zero);
    assert -one.Meaning() == ONE && zero.Meaning() == 0;
    assert "-" + "-1" == "--1";
  }

  // ---------------------------------------------------------------- the round trip

  lemma FullNumeral(left: string, right: string)
    requires AllDigits(left) && AllDigits(right) && left != [] && |right| == PRECISION && AllDigits(left + right)
    ensures var m := Numeral("", left, Some(right));
            m.Readable() && m.Text() == left + "." + right && m.Meaning() == Value(left + right)
  {
    hide Value;
    assert "" + left + ("." + right) == left + "." + right;
  }

  /** A printed magnitude is a numeral with eighteen decimals. */
  lemma PrintedNumeral(n: nat) returns (m: Numeral)
    ensures m.Readable() && m.sign == "" && m.Text() == PointedText(n) && m.Meaning() == n
  {
    hide Value, AllDigits, Digits;
    var bz := Digits(n);
    ValueOfDigits(n);
    var left, right;
    if |bz| <= PRECISION {
      var k := PRECISION - |bz|;
      LeadingZeros(1 + k, bz);
      left, right := "0", ZeroDigits(k) + bz;
      assert left + right == ZeroDigits(1 + k) + bz by { ZeroDigitsAre(1 + k, "0" + ZeroDigits(k)); }
      assert PointedText(n) == left + "." + right;
    } else {
      left, right := bz[..|bz| - PRECISION], bz[|bz| - PRECISION..];
      assert left + right == bz;
    }
    DigitParts(left, right);
    FullNumeral(left, right);
    m := Numeral("", left, Some(right));
  }

  lemma DigitParts(left: string, right: string)
    requires AllDigits(left + right)
    ensures AllDigits(left) && AllDigits(right)
  {
    assert forall i :: 0 <= i < |left| ==> left[i] == (left + right)[i];
    assert forall i :: 0 <= i < |right| ==> right[i] == (left + right)[|left| + i];
  }

  lemma ParsePrinted(n: nat)
    requires InRange(n)
    ensures ParseMagnitude(PointedText(n)) == Ok(n)
    ensures PointedText(n) != [] && PointedText(n)[0] != '-'
  {
    hide Value, ParseMagnitude, InRange, PointedText;
    var m := PrintedNumeral(n);
    ReadMagnitude(m);
  }

  /** Parsing the printed form of any decimal in range gives the decimal back. */
  lemma PrintParseRoundTrip(d: int)
    requires InRange(d)
    ensures ParseDec(DecString(d)) == Ok(d)
  {
    hide ParseMagnitude, PointedText;
    ParsePrinted(Abs(d));
    if d < 0 {
      assert DecString(d)[1..] == PointedText(-d);
    }
  }

  /** The buffer of the source: a point and zeros are put in place, and the digits copied around them. */
  method PrintMagnitude(n: nat) returns (s: string)
    ensures s == PointedText(n)
  {
    var bz := Digits(n);
    var size := |bz|;
    var buf: array<char>;
    if size <= PRECISION {
      buf := new char[PRECISION + 2];
      buf[0], buf[1] := '0', '.';
      var fill := PRECISION - size;
      for i := 0 to fill
        invariant buf[0] == '0' && buf[1] == '.'
        invariant forall j :: 2 <= j < i + 2 ==> buf[j] == '0'
      {
        buf[i + 2] := '0';
      }
      forall j | 0 <= j < size {
        buf[2 + fill + j] := bz[j];
      }
      assert buf[2..2 + fill] == ZeroDigits(fill) by { ZeroDigitsAre(fill, buf[2..2 + fill]); }
      assert buf[..] == buf[..2] + buf[2..2 + fill] + buf[2 + fill..];
    } else {
      buf := new char[size + 1];
      var point := size - PRECISION;
      forall j | 0 <= j < size + 1 {
        buf[j] := if j < point then bz[j] else if j == point then '.' else bz[j - 1];
      }
    }
    s := buf[..];
  }

  // ---------------------------------------------------------------- sortable bytes

  /** Byte order. */
  predicate LexLess(a: string, b: string) {
    b != [] && (a == [] || a[0] < b[0] || (a[0] == b[0] && LexLess(a[1..], b[1..])))
  }

  const MAX_SORTABLE: nat := ONE * ONE

  /** The bound is the reciprocal of the smallest decimal, as the source computes it. */
  lemma MaxSortableIsReciprocal()
    ensures QuoDec(ONE, 1) == Some(MAX_SORTABLE)
  {
    LimitIsLarge();
    ChopRoundExact(MAX_SORTABLE);
    assert Scaled(ONE, 1) == MAX_SORTABLE * ONE;
  }

  /** Padded on the left to a width of thirty-seven. */
  function Padded(s: string): string {
    if |s| >= 2 * PRECISION + 1 then s else ZeroDigits(2 * PRECISION + 1 - |s|) + s
  }

  /** `None` is the panic of a decimal out of bounds. */
  function SortableBytes(d: int): Option<string> {
    if Abs(d) > MAX_SORTABLE then None
    else if d == MAX_SORTABLE then Some("max")
    else if d + MAX_SORTABLE == 0 then Some("--")
    else if d < 0 then Some("-" + Padded(DecString(-d)))
    else Some(Padded(DecString(d)))
  }

  /** `n` in exactly `k` digits. */
  function Fixed(n: nat, k: nat): (s: string)
    ensures |s| == k && AllDigits(s)
  {
    if k == 0 then [] else Fixed(n / 10, k - 1) + [Digit(n % 10)]
  }

  lemma {:induction false} FixedOfZero(k: nat)
    ensures Fixed(0, k) == ZeroDigits(k)
  {
    if k > 0 {
      FixedOfZero(k - 1);
    }
  }

  /** A numeral padded with zeros is the fixed-width numeral. */
  lemma {:induction false} PaddedDigits(n: nat, k: nat)
    requires n < Pow10(k) && 1 <= k
    ensures |Digits(n)| <= k && ZeroDigits(k - |Digits(n)|) + Digits(n) == Fixed(n, k)
    decreases k
  {
    if n < 10 {
      FixedOfZero(k - 1);
    } else {
      PaddedDigits(n / 10, k - 1);
      var z, ds, c := ZeroDigits(k - |Digits(n)|), Digits(n / 10), [Digit(n % 10)];
      assert z + (ds + c) == z + ds + c;
    }
  }

  lemma {:induction false} LexAppend(x: string, y: string, p: string, q: string)
    requires |x| == |y|
    ensures LexLess(x + p, y + q) <==> LexLess(x, y) || (x == y && LexLess(p, q))
  {
    if x == [] {
      assert x + p == p && y + q == q;
    } else {
      assert (x + p)[1..] == x[1..] + p && (y + q)[1..] == y[1..] + q;
      LexAppend(x[1..], y[1..], p, q);
      assert x == [x[0]] + x[1..] && y == [y[0]] + y[1..];
    }
  }

  lemma {:induction false} FixedOrdered(a: nat, b: nat, k: nat)
    requires a < b < Pow10(k)
    ensures LexLess(Fixed(a, k), Fixed(b, k))
    decreases k
  {
    var x, y := Fixed(a / 10, k - 1), Fixed(b / 10, k - 1);
    LexAppend(x, y, [Digit(a % 10)], [Digit(b % 10)]);
    if a / 10 < b / 10 {
      FixedOrdered(a / 10, b / 10, k - 1);
    } else {
      assert a % 10 < b % 10;
    }
  }

  /** A longer run of zeros is a run of zeros and a rest of them. */
  lemma ZerosPart(k: nat, m: nat)
    ensures ZeroDigits(k + m) == ZeroDigits(k) + ZeroDigits(m)
  {
    hide ZeroDigits;
    ZeroDigitsAre(k + m, ZeroDigits(k) + ZeroDigits(m));
  }

  lemma PadAcrossPoint(bz: string, k: nat)
    requires |bz| + k == PRECISION
    ensures var f := ZeroDigits(36 - |bz|) + bz;
            f[..PRECISION] + "." + f[PRECISION..] == ZeroDigits(17) + ("0." + ZeroDigits(k) + bz)
  {
    hide ZeroDigits;
    ZerosPart(18, k);
    ZeroDigitsAre(18, ZeroDigits(17) + "0");
    var f := ZeroDigits(18) + ZeroDigits(k) + bz;
    assert f[..18] == ZeroDigits(17) + "0" && f[18..] == ZeroDigits(k) + bz;
    assert "0." == "0" + ".";
  }

  lemma PointedSmall(n: nat)
    requires |Digits(n)| <= PRECISION
    ensures PointedText(n) == "0." + ZeroDigits(PRECISION - |Digits(n)|) + Digits(n) && |PointedText(n)| == 20
  {
    hide Digits, ZeroDigits;
  }

  /** Zero padding in front of a magnitude of at most eighteen digits. */
  lemma PaddedSmall(n: nat, f: string)
    requires |Digits(n)| <= PRECISION && f == ZeroDigits(36 - |Digits(n)|) + Digits(n)
    ensures Padded(PointedText(n)) == f[..PRECISION] + "." + f[PRECISION..]
  {
    hide *;
    var bz := Digits(n);
    PointedSmall(n);
    PadAcrossPoint(bz, PRECISION - |bz|);
    PadFront(PointedText(n), 17);
  }

  lemma PadBeforePoint(z: string, bz: string)
    requires PRECISION < |bz| && |z| + |bz| == 36
    ensures (z + bz)[..PRECISION] + "." + (z + bz)[PRECISION..]
            == z + (bz[..|bz| - PRECISION] + "." + bz[|bz| - PRECISION..])
  {
    assert (z + bz)[..PRECISION] == z + bz[..|bz| - PRECISION];
    assert (z + bz)[PRECISION..] == bz[|bz| - PRECISION..];
  }

  lemma PaddedLarge(n: nat, f: string)
    requires PRECISION < |Digits(n)| <= 36 && f == ZeroDigits(36 - |Digits(n)|) + Digits(n)
    ensures Padded(PointedText(n)) == f[..PRECISION] + "." + f[PRECISION..]
  {
    hide *;
    var bz := Digits(n);
    PointedLarge(n);
    PadBeforePoint(ZeroDigits(36 - |bz|), bz);
    PadFront(PointedText(n), 36 - |bz|);
  }

  lemma PointedLarge(n: nat)
    requires PRECISION < |Digits(n)|
    ensures |PointedText(n)| == |Digits(n)| + 1
    ensures PointedText(n) == Digits(n)[..|Digits(n)| - PRECISION] + "." + Digits(n)[|Digits(n)| - PRECISION..]
  {
    hide Digits;
  }

  lemma PadFront(s: string, k: nat)
    requires |s| + k == 37
    ensures Padded(s) == ZeroDigits(k) + s
  {
    if k == 0 {
      assert ZeroDigits(0) + s == s;
    }
  }

  /** Every magnitude below the bound is eighteen digits, a point and eighteen digits. */
  lemma PaddedText(n: nat)
    requires n < MAX_SORTABLE
    ensures var f := Fixed(n, 2 * PRECISION);
            Padded(PointedText(n)) == f[..PRECISION] + "." + f[PRECISION..]
  {
    hide Fixed, Digits, Pow10, ZeroDigits, Padded, PointedText;
    Pow10Of36();
    PaddedDigits(n, 36);
    if |Digits(n)| <= PRECISION {
      PaddedSmall(n, Fixed(n, 36));
    } else {
      PaddedLarge(n, Fixed(n, 36));
    }
  }

  lemma Pow10Of36()
    ensures Pow10(36) == MAX_SORTABLE
  {
    Pow10Of18();
    assert Pow10(24) == 1_000_000 * Pow10(18);
    assert Pow10(30) == 1_000_000 * Pow10(24);
    assert Pow10(36) == 1_000_000 * Pow10(30);
  }

  lemma PointNotBelowPoint()
    ensures !LexLess(".", ".")
  {
  }

  lemma PaddedOrdered(a: nat, b: nat)
    requires a < b < MAX_SORTABLE
    ensures LexLess(Padded(PointedText(a)), Padded(PointedText(b)))
  {
    hide LexLess, Fixed, Pow10, Padded, PointedText;
    Pow10Of36();
    FixedOrdered(a, b, 36);
    PaddedText(a);
    PaddedText(b);
    var x, y := Fixed(a, 36), Fixed(b, 36);
    assert x == x[..18] + x[18..] && y == y[..18] + y[18..];
    LexAppend(x[..18], y[..18], x[18..], y[18..]);
    LexAppend(x[..18], y[..18], "." + x[18..], "." + y[18..]);
    LexAppend(".", ".", x[18..], y[18..]);
    assert x[..18] + "." + x[18..] == x[..18] + ("." + x[18..]);
    assert y[..18] + "." + y[18..] == y[..18] + ("." + y[18..]);
    PointNotBelowPoint();
  }

  lemma PaddedStartsWithDigit(n: nat)
    requires n < MAX_SORTABLE
    ensures Padded(PointedText(n)) != [] && IsDigit(Padded(PointedText(n))[0])
  {
    hide Fixed, Padded, PointedText;
    PaddedText(n);
  }

  lemma {:induction false} LexAsymmetric(a: string, b: string)
    requires LexLess(a, b)
    ensures !LexLess(b, a)
  {
    if a != [] && a[0] == b[0] {
      LexAsymmetric(a[1..], b[1..]);
    }
  }

  /** The encodings of two negative decimals other than the least sort the wrong way round. */
  lemma NegativesReversed(a: int, b: int)
    requires -(MAX_SORTABLE as int) < a < b < 0
    ensures LexLess(SortableBytes(b).value, SortableBytes(a).value)
  {
    hide LexLess, Padded, PointedText;
    var x, y := Padded(PointedText(-b)), Padded(PointedText(-a));
    PaddedOrdered(-b, -a);
    LexAppend("-", "-", x, y);
  }

  /**
    The byte order of the encodings is the order of the decimals exactly when the larger one is not negative or the
    smaller one is the least sortable decimal.
   */
  lemma SortableOrderIff(a: int, b: int)
    requires a < b
    ensures SortableBytes(a).Some? <==> Abs(a) <= MAX_SORTABLE
    ensures SortableBytes(b).Some? <==> Abs(b) <= MAX_SORTABLE
    ensures SortableBytes(a).Some? && SortableBytes(b).Some? ==>
              (LexLess(SortableBytes(a).value, SortableBytes(b).value) <==> 0 <= b || a + MAX_SORTABLE == 0)
  {
    hide Padded, PointedText;
    if Abs(a) > MAX_SORTABLE || Abs(b) > MAX_SORTABLE {
    } else if 0 <= a {
      PaddedStartsWithDigit(a);
      if b < MAX_SORTABLE {
        PaddedOrdered(a, b);
      }
    } else if 0 <= b {
      if b < MAX_SORTABLE {
        PaddedStartsWithDigit(b);
      }
    } else {
      PaddedStartsWithDigit(-b);
      if a + MAX_SORTABLE != 0 {
        NegativesReversed(a, b);
        LexAsymmetric(SortableBytes(b).value, SortableBytes(a).value);
      }
    }
  }
}
