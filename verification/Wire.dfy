/**
  The Protocol Buffers wire format as the generated code reads and writes it: base 128 varints, tagged
  fields, skipping of unknown fields and groups (Protocol Buffers Encoding, "Base 128 Varints" and
  "Message Structure").
 */
module Wire {
  import opened Wrappers
  import opened ByteStrings
  import opened Bits

  const TWO63: nat := 0x8000_0000_0000_0000
  const TWO64: nat := 0x1_0000_0000_0000_0000

  type uint64 = x: int | 0 <= x < TWO64

  /** A byte slice: its length is a signed 64-bit integer. */
  type Slice = s: Bytes | |s| < TWO63

  datatype Error =
    | IntOverflow
    | UnexpectedEOF
    | InvalidLength
    | EndGroupForNonGroup
    | IllegalTag
    | WrongWireType
    | IllegalWireType
    | UnexpectedEndOfGroup

  type Decoded<T> = Result<T, Error>

  // ---------------------------------------------------------------- machine integers

  /** Whether an unsigned 64-bit value is negative once converted to a signed integer. */
  predicate Negative64(x: nat) {
    TWO63 <= x
  }

  /** Conversion to a signed 32-bit integer. */
  function Int32(x: int): int {
    var r := x % 0x1_0000_0000;
    if r < 0x8000_0000 then r else r - 0x1_0000_0000
  }

  // ---------------------------------------------------------------- varints

  /** Seven bits a byte, least significant first, the high bit set on all but the last. */
  function VarintBytes(v: nat): (s: Bytes)
    ensures 1 <= |s|
  {
    if v < 128 then [v] else [v % 128 + 128] + VarintBytes(v / 128)
  }

  /** The size computed without encoding: the bits of `x | 1`, seven to a byte. */
  function Sov(x: nat): nat {
    (BitLen(if x % 2 == 0 then x + 1 else x) + 6) / 7
  }

  lemma SevenBits(x: nat)
    requires 128 <= x
    ensures BitLen(x) == 7 + BitLen(x / 128)
  {
    var a, b, c, d, e, f := x / 2, x / 4, x / 8, x / 16, x / 32, x / 64;
    assert BitLen(x) == 1 + BitLen(a);
    assert b == a / 2 && BitLen(a) == 1 + BitLen(b);
    assert c == b / 2 && BitLen(b) == 1 + BitLen(c);
    assert d == c / 2 && BitLen(c) == 1 + BitLen(d);
    assert e == d / 2 && BitLen(d) == 1 + BitLen(e);
    assert f == e / 2 && BitLen(e) == 1 + BitLen(f);
    assert x / 128 == f / 2;
  }

  lemma {:induction false} LowBit(x: nat)
    requires 1 <= x && x % 2 == 0
    ensures BitLen(x + 1) == BitLen(x)
  {
    assert (x + 1) / 2 == x / 2;
  }

  /** The size function counts exactly the bytes the encoder writes. */
  lemma {:induction false} SovIsEncodedLength(x: nat)
    ensures Sov(x) == |VarintBytes(x)|
  {
    if x < 128 {
      var y := if x % 2 == 0 then x + 1 else x;
      assert Pow2(7) == 128;
      BitLenIff(y, 7);
    } else {
      SovIsEncodedLength(x / 128);
      SevenBits(x);
      if x % 2 == 0 {
        LowBit(x);
      }
      if x / 128 % 2 == 0 {
        LowBit(x / 128);
      }
    }
  }

  /** No 64-bit value takes more than ten bytes. */
  lemma VarintIsShort(v: uint64)
    ensures |VarintBytes(v)| <= 10
  {
    SovIsEncodedLength(v);
    Pow2Of64();
    BitLenIff(if v % 2 == 0 then v + 1 else v, 64);
  }

  /** The decoding loop from position `i`, having read `shift` bits worth `acc`; bits past the 64th are lost. */
  function VarintAt(data: Bytes, i: nat, shift: nat, acc: uint64): (r: Decoded<(uint64, nat)>)
    ensures r.Ok? ==> i < r.value.1 <= |data|
    decreases |data| - i
  {
    if shift >= 64 then Err(IntOverflow)
    else if i >= |data| then Err(UnexpectedEOF)
    else
      var acc' := (acc + data[i] % 128 * Pow2(shift)) % TWO64;
      if data[i] < 128 then Ok((acc', i + 1)) else VarintAt(data, i + 1, shift + 7, acc')
  }

  function Varint(data: Bytes, i: nat): (r: Decoded<(uint64, nat)>)
    ensures r.Ok? ==> i < r.value.1 <= |data|
  {
    VarintAt(data, i, 0, 0)
  }

  /** `s` stands at position `i` of `data`. */
  predicate At(data: Bytes, i: nat, s: Bytes) {
    i + |s| <= |data| && data[i..i + |s|] == s
  }

  lemma AtConcat(data: Bytes, i: nat, s: Bytes, t: Bytes)
    requires At(data, i, s + t)
    ensures At(data, i, s) && At(data, i + |s|, t)
  {
    assert data[i..i + |s|] == (s + t)[..|s|];
    assert data[i + |s|..i + |s| + |t|] == (s + t)[|s|..];
  }

  /** One turn of the loop over a byte with more to come. */
  lemma VarintStep(data: Bytes, i: nat, shift: nat, acc: uint64, low: nat)
    requires low < 128 && shift < 64 && i < |data| && data[i] == low + 128
    requires acc + low * Pow2(shift) < TWO64
    ensures VarintAt(data, i, shift, acc) == VarintAt(data, i + 1, shift + 7, acc + low * Pow2(shift))
  {
    assert data[i] % 128 == low;
    NoWrap(acc, low, Pow2(shift));
  }

  lemma NoWrap(acc: nat, low: nat, p: nat)
    requires acc + low * p < TWO64
    ensures 0 <= acc + low * p && (acc + low * p) % TWO64 == acc + low * p
  {
  }

  lemma {:induction false} VarintAtEncoded(data: Bytes, i: nat, shift: nat, acc: uint64, v: nat)
    requires At(data, i, VarintBytes(v))
    requires v == 0 ==> shift == 0
    requires acc + v * Pow2(shift) < TWO64
    ensures VarintAt(data, i, shift, acc) == Ok((acc + v * Pow2(shift), i + |VarintBytes(v)|))
    decreases v
  {
    if v > 0 {
      ShiftBelow64(v, shift);
    }
    assert data[i] == VarintBytes(v)[0];
    if v < 128 {
      VarintLast(data, i, shift, acc, v);
    } else {
      AtConcat(data, i, [v % 128 + 128], VarintBytes(v / 128));
      SplitLowBits(v, shift);
      VarintStep(data, i, shift, acc, v % 128);
      VarintAtEncoded(data, i + 1, shift + 7, acc + v % 128 * Pow2(shift), v / 128);
    }
  }

  lemma VarintLast(data: Bytes, i: nat, shift: nat, acc: uint64, low: nat)
    requires low < 128 && shift < 64 && i < |data| && data[i] == low
    requires acc + low * Pow2(shift) < TWO64
    ensures VarintAt(data, i, shift, acc) == Ok((acc + low * Pow2(shift), i + 1))
  {
    assert data[i] % 128 == low;
    NoWrap(acc, low, Pow2(shift));
  }

  lemma ShiftBelow64(v: nat, shift: nat)
    requires 1 <= v && v * Pow2(shift) < TWO64
    ensures shift < 64
  {
    MulAtLeast(v, Pow2(shift));
    if shift >= 64 {
      Pow2Of64();
      Pow2Grows(64, shift);
    }
  }

  lemma MulAtLeast(v: nat, p: nat)
    requires 1 <= v
    ensures p <= v * p
  {
  }

  lemma SplitLowBits(v: nat, shift: nat)
    ensures v * Pow2(shift) == v / 128 * Pow2(shift + 7) + v % 128 * Pow2(shift)
    ensures 0 <= v / 128 * Pow2(shift + 7) && 0 <= v % 128 * Pow2(shift)
  {
    Pow2Adds(shift, 7);
    assert Pow2(7) == 128;
    Regroup(v, Pow2(shift));
  }

  lemma Regroup(v: nat, p: nat)
    ensures v * p == v / 128 * (p * 128) + v % 128 * p
    ensures 0 <= v / 128 * (p * 128) && 0 <= v % 128 * p
  {
    assert v == v / 128 * 128 + v % 128;
  }

  /** Reading back a written varint, wherever it stands. */
  lemma VarintRoundTrip(data: Bytes, i: nat, v: uint64)
    requires At(data, i, VarintBytes(v))
    ensures Varint(data, i) == Ok((v, i + |VarintBytes(v)|))
  {
    assert Pow2(0) == 1;
    VarintAtEncoded(data, i, 0, 0, v);
  }
}
