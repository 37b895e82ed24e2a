/** The codecs of string, byte-string and unsigned integer keys. */
module StandardKeys {
  import opened Wrappers
  import opened ByteStrings
  import opened KeyCodecs
  import opened Runes

  /** Copying stops at the shorter of the two. */
  function Copy(buffer: Bytes, s: Bytes): (nat, Bytes) {
    if |s| <= |buffer| then (|s|, s + buffer[|s|..]) else (|buffer|, s[..|buffer|])
  }

  /** Strings and byte strings as the last part of a key: the bytes themselves, to the end. */
  const RawForm: Form<Bytes> := Form((buffer, s) => Some(Copy(buffer, s)), buffer => Some((|buffer|, buffer)), s => |s|)

  /** Any string or byte string can stand alone. */
  lemma RawIsWhole(s: Bytes)
    ensures Whole(StringKey, s) && Whole(BytesKey, s) && Enc(RawForm, s) == s
  {
    assert s + Zeros(|s|)[|s|..] == s;
    forall n: nat | |s| <= n
      ensures WritesInto(RawForm, s, n)
    {
      assert Zeros(n)[|s|..] == Zeros(n - |s|);
    }
  }

  // ---------------------------------------------------------------- strings

  /** Ranging over the string from `i`, copying the byte each rune starts with. */
  function CopyRunes(buffer: Bytes, s: Bytes, i: nat): Option<Bytes>
    decreases |s| - i
  {
    if i >= |s| then Some(buffer)
    else if s[i] == 0 then None
    else if i >= |buffer| then None
    else CopyRunes(buffer[i := s[i]], s, i + RuneWidth(s, i))
  }

  function EncodeString(buffer: Bytes, s: Bytes): Option<(nat, Bytes)> {
    var r := CopyRunes(buffer, s, 0);
    if r.None? then None else Some((|s| + 1, r.value))
  }

  /** The position of the first zero byte, or the length if there is none. */
  function IndexZero(s: Bytes): (n: nat)
    ensures n <= |s| && (n < |s| ==> s[n] == 0) && forall i :: 0 <= i < n ==> s[i] != 0
  {
    if s == [] || s[0] == 0 then 0 else 1 + IndexZero(s[1..])
  }

  function DecodeString(buffer: Bytes): Option<(nat, Bytes)> {
    var n := IndexZero(buffer);
    if n == |buffer| then None else Some((n + 1, buffer[..n]))
  }

  /** A string is what stands before the first zero byte, and there must be one. */
  lemma DecodeStringIff(buffer: Bytes, n: nat, s: Bytes)
    ensures DecodeString(buffer).None? <==> 0 !in buffer
    ensures DecodeString(buffer) == Some((n, s)) <==> 1 <= n <= |buffer| && buffer[n - 1] == 0 && s == buffer[..n - 1] && 0 !in s
  {
    hide IndexZero;
    var z := IndexZero(buffer);
    assert 0 !in buffer[..z];
    if 1 <= n <= |buffer| && z < n - 1 {
      assert buffer[..n - 1][z] == 0;
    }
  }

  /** Strings before the last part of a key: ended by a zero byte. */
  const StringForm: Form<Bytes> := Form((buffer, s) => EncodeString(buffer, s), buffer => DecodeString(buffer), s => |s| + 1)

  const StringKey: KeyCodec<Bytes> := KeyCodec(RawForm, StringForm)

  /** No zero byte, and no rune of more than one byte. */
  predicate Plain(s: Bytes) {
    forall i :: 0 <= i < |s| ==> s[i] != 0 && RuneWidth(s, i) == 1
  }

  lemma {:induction false} CopyPlain(buffer: Bytes, s: Bytes, i: nat)
    requires Plain(s) && i <= |s| <= |buffer| && buffer[..i] == s[..i]
    ensures CopyRunes(buffer, s, i) == Some(s + buffer[|s|..])
    decreases |s| - i
  {
    if i == |s| {
      assert buffer == buffer[..i] + buffer[i..];
      assert s == s[..i];
    } else {
      var next := buffer[i := s[i]];
      assert next[..i + 1] == buffer[..i] + [s[i]] == s[..i + 1];
      CopyPlain(next, s, i + 1);
      assert next[|s|..] == buffer[|s|..];
    }
  }

  lemma PlainWrites(s: Bytes, n: nat)
    requires Plain(s) && |s| + 1 <= n
    ensures StringForm.encode(Zeros(n), s) == Some((|s| + 1, s + [0] + Zeros(n - |s| - 1)))
  {
    CopyPlain(Zeros(n), s, 0);
    assert s + Zeros(n)[|s|..] == s + [0] + Zeros(n - |s| - 1);
  }

  lemma PlainIsPartial(s: Bytes)
    requires Plain(s)
    ensures Partial(StringKey, s) && Enc(StringForm, s) == s + [0]
  {
    PlainWrites(s, |s| + 1);
    assert s + [0] + Zeros(0) == s + [0];
    forall n: nat | |s| + 1 <= n
      ensures WritesInto(StringForm, s, n)
    {
      PlainWrites(s, n);
    }
    forall rest: Bytes
      ensures DecodeString(s + [0] + rest) == Some((|s| + 1, s))
    {
      var buffer := s + [0] + rest;
      forall i | 0 <= i < |s|
        ensures buffer[i] != 0
      {
        assert buffer[i] == s[i];
      }
      assert buffer[|s|] == 0 && buffer[..|s|] == s;
    }
  }

  lemma {:induction false} CopyOnlyAhead(buffer: Bytes, s: Bytes, i: nat, j: nat)
    requires j < i && j < |buffer| && CopyRunes(buffer, s, i).Some?
    ensures |CopyRunes(buffer, s, i).value| == |buffer| && CopyRunes(buffer, s, i).value[j] == buffer[j]
    decreases |s| - i
  {
    if i < |s| {
      CopyOnlyAhead(buffer[i := s[i]], s, i + RuneWidth(s, i), j);
    }
  }

  /** A zero byte stops the encoder, and a wider rune leaves a hole: either way the string does not come back. */
  lemma {:induction false} NotPlainIsLost(buffer: Bytes, s: Bytes, i: nat, k: nat)
    requires i <= k < |s| < |buffer| && (s[k] == 0 || RuneWidth(s, k) != 1)
    requires forall j :: 0 <= j < k ==> s[j] != 0 && RuneWidth(s, j) == 1
    requires forall j :: i <= j < |buffer| ==> buffer[j] == 0
    ensures CopyRunes(buffer, s, i).Some? ==>
              |CopyRunes(buffer, s, i).value| == |buffer| && exists j :: 0 <= j < |s| && CopyRunes(buffer, s, i).value[j] == 0
    decreases k - i
  {
    var next := buffer[i := s[i]];
    if i < k {
      NotPlainIsLost(next, s, i + 1, k);
    } else if CopyRunes(buffer, s, i).Some? {
      CopyOnlyAhead(next, s, i + RuneWidth(s, i), i + 1);
      assert CopyRunes(buffer, s, i).value[i + 1] == 0;
    }
  }

  /** The first place where a string stops being plain. */
  lemma FirstNotPlain(s: Bytes) returns (k: nat)
    requires !Plain(s)
    ensures k < |s| && (s[k] == 0 || RuneWidth(s, k) != 1)
    ensures forall j :: 0 <= j < k ==> s[j] != 0 && RuneWidth(s, j) == 1
  {
    k := 0;
    while s[k] != 0 && RuneWidth(s, k) == 1
      invariant k < |s| && forall j :: 0 <= j < k ==> s[j] != 0 && RuneWidth(s, j) == 1
      decreases |s| - k
    {
      k := k + 1;
    }
  }

  /**
    * A string can be the first part of a composite key exactly when it has no zero byte and no rune of more than one
    * byte. The encoder copies only the byte each rune starts with.
    */
  lemma StringPartialIff(s: Bytes)
    ensures Partial(StringKey, s) <==> Plain(s)
  {
    if Plain(s) {
      PlainIsPartial(s);
    } else if Partial(StringKey, s) {
      WritesItself(StringForm, s);
      DelimitedReads(StringForm, s);
      var k := FirstNotPlain(s);
      NotPlainIsLost(Zeros(|s| + 1), s, 0, k);
    }
  }

  /** Two different strings, each of one two-byte rune, are written the same. */
  lemma StringsCollide()
    ensures Enc(StringForm, [0xC3, 0xA9]) == [0xC3, 0, 0] == Enc(StringForm, [0xC3, 0xA8])
  {
    var z: Bytes := [0, 0, 0];
    assert Zeros(3) == z;
    var s: Bytes, t: Bytes := [0xC3, 0xA9], [0xC3, 0xA8];
    assert z[0 := 0xC3] == [0xC3, 0, 0];
    assert RuneWidth(s, 0) == 2 && RuneWidth(t, 0) == 2;
    assert CopyRunes([0xC3, 0, 0], s, 2) == Some([0xC3, 0, 0]) == CopyRunes([0xC3, 0, 0], t, 2);
  }

  /** Writes a string key into a buffer, rune by rune. */
  method EncodeStringNonTerminal(buffer: array<byte>, key: Bytes) returns (r: Option<nat>)
    modifies buffer
    ensures var spec := EncodeString(old(buffer[..]), key);
            if spec.None? then r == None else r == Some(spec.value.0) && buffer[..] == spec.value.1
  {
    var i := 0;
    while i < |key|
      invariant 0 <= i <= |key|
      invariant CopyRunes(buffer[..], key, i) == CopyRunes(old(buffer[..]), key, 0)
    {
      if key[i] == 0 || i >= buffer.Length {
        return None;
      }
      ghost var before := buffer[..];
      buffer[i] := key[i];
      assert buffer[..] == before[i := key[i]];
      i := i + RuneWidth(key, i);
    }
    return Some(|key| + 1);
  }

  // ---------------------------------------------------------------- byte strings

  function EncodeBytes(buffer: Bytes, s: Bytes): Option<(nat, Bytes)> {
    if |s| > 255 || buffer == [] then None
    else
      var c := Copy(buffer[1..], s);
      Some((c.0 + 1, [|s|] + c.1))
  }

  function DecodeBytes(buffer: Bytes): Option<(nat, Bytes)> {
    if buffer == [] then None
    else
      var n: nat := buffer[0];
      if |buffer| - 1 < n then None else Some((1 + n, buffer[1..n + 1]))
  }

  /** Byte strings before the last part of a key: led by their length in one byte. */
  const BytesForm: Form<Bytes> := Form((buffer, s) => EncodeBytes(buffer, s), buffer => DecodeBytes(buffer), s => |s| + 1)

  const BytesKey: KeyCodec<Bytes> := KeyCodec(RawForm, BytesForm)

  /** A byte string can be the first part of a composite key exactly when its length fits in a byte. */
  lemma BytesPartialIff(s: Bytes)
    ensures Partial(BytesKey, s) <==> |s| <= 255
  {
    if |s| > 255 {
      assert BytesForm.encode(Zeros(|s| + 1), s) == None;
      if Writes(BytesForm, s) {
        WritesItself(BytesForm, s);
      }
    } else {
      forall n: nat | |s| + 1 <= n
        ensures BytesForm.encode(Zeros(n), s) == Some((|s| + 1, [|s|] + s + Zeros(n - |s| - 1)))
      {
        assert Zeros(n)[1..][|s|..] == Zeros(n - |s| - 1);
        assert [|s|] + (s + Zeros(n - |s| - 1)) == [|s|] + s + Zeros(n - |s| - 1);
      }
      assert [|s|] + s + Zeros(0) == [|s|] + s;
      assert forall n: nat :: |s| + 1 <= n ==> WritesInto(BytesForm, s, n);
      forall rest: Bytes
        ensures DecodeBytes([|s|] + s + rest) == Some((|s| + 1, s))
      {
        assert ([|s|] + s + rest)[1..|s| + 1] == s;
      }
    }
  }

  // ---------------------------------------------------------------- unsigned integers

  function Pow256(n: nat): (p: nat)
    ensures 1 <= p
  {
    if n == 0 then 1 else 256 * Pow256(n - 1)
  }

  /** The value in `n` bytes, most significant first. */
  function BigEndian(v: nat, n: nat): (s: Bytes)
    ensures |s| == n
  {
    if n == 0 then [] else BigEndian(v / 256, n - 1) + [v % 256]
  }

  function FromBigEndian(s: Bytes): nat {
    if s == [] then 0 else 256 * FromBigEndian(s[..|s| - 1]) + s[|s| - 1]
  }

  lemma {:induction false} BigEndianRoundTrip(v: nat, n: nat)
    requires v < Pow256(n)
    ensures FromBigEndian(BigEndian(v, n)) == v
  {
    if n > 0 {
      BigEndianRoundTrip(v / 256, n - 1);
      assert BigEndian(v, n)[..n - 1] == BigEndian(v / 256, n - 1);
    }
  }

  function EncodeUint(width: nat, buffer: Bytes, v: nat): Option<(nat, Bytes)> {
    if |buffer| < width then None else Some((width, BigEndian(v, width) + buffer[width..]))
  }

  function DecodeUint(width: nat, buffer: Bytes): Option<(nat, nat)> {
    if |buffer| < width then None else Some((width, FromBigEndian(buffer[..width])))
  }

  /** Integers of `width` bytes, written alike in every place of a key; the width is 2, 4 or 8. */
  function UintForm(width: nat): Form<nat> {
    Form((buffer, v) => EncodeUint(width, buffer, v), buffer => DecodeUint(width, buffer), _ => width)
  }

  function UintKey(width: nat): KeyCodec<nat> {
    KeyCodec(UintForm(width), UintForm(width))
  }

  lemma UintIsStorable(width: nat, v: nat)
    requires v < Pow256(width)
    ensures Whole(UintKey(width), v) && Partial(UintKey(width), v) && Enc(UintForm(width), v) == BigEndian(v, width)
  {
    var f, s := UintForm(width), BigEndian(v, width);
    assert s + Zeros(width)[width..] == s;
    forall n: nat | width <= n
      ensures WritesInto(f, v, n)
    {
      assert Zeros(n)[width..] == Zeros(n - width);
    }
    forall rest: Bytes
      ensures f.decode(s + rest) == Some((width, v))
    {
      assert (s + rest)[..width] == s;
      BigEndianRoundTrip(v, width);
    }
    DelimitedReads(f, v);
  }

  /** A last byte decides only between equal fronts. */
  lemma {:induction false} LessAtLast(a: Bytes, b: Bytes, x: byte, y: byte)
    requires |a| == |b|
    ensures Less(a + [x], b + [y]) <==> Less(a, b) || (a == b && x < y)
  {
    if a == [] {
      assert a + [x] == [x] && b + [y] == [y];
      assert [x][1..] == [] && [y][1..] == [];
    } else {
      LessAtLast(a[1..], b[1..], x, y);
      assert (a + [x])[1..] == a[1..] + [x] && (b + [y])[1..] == b[1..] + [y];
      assert a == [a[0]] + a[1..] && b == [b[0]] + b[1..];
    }
  }

  /** Integer keys are stored in the order of the integers. */
  lemma {:induction false} UintKeysSorted(width: nat, v: nat, w: nat)
    requires v < Pow256(width) && w < Pow256(width)
    ensures Less(BigEndian(v, width), BigEndian(w, width)) <==> v < w
    decreases width
  {
    if width > 0 {
      UintKeysSorted(width - 1, v / 256, w / 256);
      LessAtLast(BigEndian(v / 256, width - 1), BigEndian(w / 256, width - 1), v % 256, w % 256);
      BigEndianRoundTrip(v / 256, width - 1);
      BigEndianRoundTrip(w / 256, width - 1);
    }
  }

  // ---------------------------------------------------------------- strings before integers

  lemma {:induction false} CopyKeepsLength(buffer: Bytes, s: Bytes, i: nat)
    requires CopyRunes(buffer, s, i).Some?
    ensures |CopyRunes(buffer, s, i).value| == |buffer|
    decreases |s| - i
  {
    if i < |s| {
      CopyKeepsLength(buffer[i := s[i]], s, i + RuneWidth(s, i));
    }
  }

  /** What a pair of string and integer is written as. */
  lemma StringPairWritten(s: Bytes, width: nat, v: nat)
    ensures var n := |s| + 1 + width;
            var runes := CopyRunes(Zeros(n), s, 0);
            && (runes.Some? ==> |runes.value| == n)
            && PairKeyCodec(StringKey, UintKey(width)).terminal.encode(Zeros(n), Join(s, v))
               == if runes.None? then None else Some((n, runes.value[..|s| + 1] + BigEndian(v, width)))
  {
    var z := Zeros(|s| + 1 + width);
    assert z[0..] == z && z[..0] == [];
    var runes := CopyRunes(z, s, 0);
    if runes.Some? {
      CopyKeepsLength(z, s, 0);
      var b, at := runes.value, |s| + 1;
      assert [] + b == b && EncodePart(StringForm, z, 0, Some(s)) == Some((at, b));
      var tail := b[at..];
      assert |tail| == width && BigEndian(v, width) + tail[width..] == BigEndian(v, width);
      assert EncodePart(UintForm(width), b, at, Some(v)) == Some((at + width, b[..at] + BigEndian(v, width)));
    } else {
      assert EncodePart(StringForm, z, 0, Some(s)) == None;
    }
  }

  lemma NotPlainLeavesHole(s: Bytes, width: nat, v: nat)
    requires !Plain(s)
    ensures var r := PairKeyCodec(StringKey, UintKey(width)).terminal.encode(Zeros(|s| + 1 + width), Join(s, v));
            r.Some? ==> |r.value.1| == |s| + 1 + width && exists j :: 0 <= j < |s| && r.value.1[j] == 0
  {
    hide Plain, CopyRunes, BigEndian, EncodePair, PairForm, RuneWidth;
    StringPairWritten(s, width, v);
    var k := FirstNotPlain(s);
    var n := |s| + 1 + width;
    NotPlainIsLost(Zeros(n), s, 0, k);
    var runes := CopyRunes(Zeros(n), s, 0);
    if runes.Some? {
      var j :| 0 <= j < |s| && runes.value[j] == 0;
      assert (runes.value[..|s| + 1] + BigEndian(v, width))[j] == 0;
    }
  }

  /** A hole in the string ends it, and something is left over. */
  lemma HoleIsEnd(buffer: Bytes, n: nat, width: nat)
    requires |buffer| == n + 1 + width && exists j :: 0 <= j < n && buffer[j] == 0
    ensures var r := DecodePair(StringForm, UintForm(width), buffer);
            r.Some? ==> r.value.0 < |buffer|
  {
  }

  /** A string can be followed by an integer exactly if it can be followed at all. */
  lemma StringPairWholeIff(s: Bytes, width: nat, v: nat)
    requires v < Pow256(width)
    ensures Whole(PairKeyCodec(StringKey, UintKey(width)), Join(s, v)) <==> Plain(s)
  {
    var kc := PairKeyCodec(StringKey, UintKey(width));
    if Plain(s) {
      PlainIsPartial(s);
      UintIsStorable(width, v);
      PairIsWhole(StringKey, UintKey(width), s, v);
    } else if Whole(kc, Join(s, v)) {
      hide Plain, DecodePair, EncodePair, Writes;
      WritesItself(kc.terminal, Join(s, v));
      NotPlainLeavesHole(s, width, v);
      HoleIsEnd(kc.terminal.encode(Zeros(|s| + 1 + width), Join(s, v)).value.1, |s|, width);
    }
  }

  /** Two different pairs of string and integer that are written the same. */
  lemma StringPairsCollide(width: nat, v: nat)
    ensures var f := PairKeyCodec(StringKey, UintKey(width)).terminal;
            && f.encode(Zeros(3 + width), Join([0xC3, 0xA9], v)).Some?
            && f.encode(Zeros(3 + width), Join([0xC3, 0xA9], v)) == f.encode(Zeros(3 + width), Join([0xC3, 0xA8], v))
  {
    var s: Bytes, t: Bytes := [0xC3, 0xA9], [0xC3, 0xA8];
    var z := Zeros(3 + width);
    assert RuneWidth(s, 0) == 2 && RuneWidth(t, 0) == 2;
    assert CopyRunes(z, s, 0) == CopyRunes(z[0 := 0xC3], s, 2) == Some(z[0 := 0xC3]);
    assert CopyRunes(z, t, 0) == CopyRunes(z[0 := 0xC3], t, 2) == Some(z[0 := 0xC3]);
    StringPairWritten(s, width, v);
    StringPairWritten(t, width, v);
  }
}
