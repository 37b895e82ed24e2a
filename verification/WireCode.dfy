/** The generated code itself: a back-to-front writer into a sized buffer and a forward parser. */
module WireCode {
  import opened Wrappers
  import opened ByteStrings
  import opened Bits
  import opened Wire
  import opened WireFields
  import opened Messages

  /** Everything outside `[lo..hi)` is as it was. */
  twostate predicate OnlyBetween(d: array<byte>, lo: nat, hi: nat)
    requires lo <= hi <= d.Length
    reads d
  {
    forall k :: 0 <= k < lo || hi <= k < d.Length ==> d[k] == old(d[k])
  }

  /** A stretch of the buffer is its parts one after the other. */
  lemma Adjoin(d: array<byte>, lo: nat, mid: nat, hi: nat)
    requires lo <= mid <= hi <= d.Length
    ensures d[lo..hi] == d[lo..mid] + d[mid..hi]
  {
  }

  /** Writes a varint so that it ends at `offset`, and returns where it begins. */
  method EncodeVarint(d: array<byte>, offset: nat, v: uint64) returns (base: nat)
    requires Sov(v) <= offset <= d.Length
    modifies d
    ensures base + Sov(v) == offset
    ensures d[base..offset] == VarintBytes(v) && OnlyBetween(d, base, offset)
  {
    SovIsEncodedLength(v);
    hide Sov;
    base := offset - Sov(v);
    var i, rest := base, v;
    while rest >= 128
      invariant base <= i && i + |VarintBytes(rest)| == offset
      invariant d[base..i] + VarintBytes(rest) == VarintBytes(v)
      invariant OnlyBetween(d, base, offset)
      decreases rest
    {
      ghost var before, low := d[base..i], rest % 128 + 128;
      FirstByte(before, rest);
      d[i] := rest % 128 + 128;
      assert d[base..i] == before;
      assert d[base..i + 1] == before + [low];
      i, rest := i + 1, rest / 128;
    }
    ghost var before := d[base..i];
    d[i] := rest;
    assert d[base..i] == before;
    assert d[base..offset] == before + [rest];
  }

  /** The first byte of a varint with more to come joins what is written already. */
  lemma FirstByte(before: Bytes, rest: nat)
    requires 128 <= rest
    ensures |VarintBytes(rest)| == 1 + |VarintBytes(rest / 128)|
    ensures before + VarintBytes(rest) == before + [rest % 128 + 128] + VarintBytes(rest / 128)
  {
    Regroup(before, [rest % 128 + 128], VarintBytes(rest / 128));
  }

  lemma Regroup(a: Bytes, b: Bytes, c: Bytes)
    ensures a + (b + c) == a + b + c
  {
  }

  /** A tag and a number, ending at `at`: a field, or what stands in front of a payload. */
  method PutHeader(d: array<byte>, at: nat, tag: byte, number: uint64) returns (k: nat)
    requires 1 + Sov(number) <= at <= d.Length
    modifies d
    ensures k + 1 + Sov(number) == at
    ensures d[k..at] == [tag] + VarintBytes(number) && OnlyBetween(d, k, at)
  {
    hide Sov, VarintBytes;
    k := EncodeVarint(d, at, number);
    ghost var body := d[k..at];
    k := k - 1;
    d[k] := tag;
    assert d[k + 1..at] == body;
    assert d[k..at] == [tag] + body;
  }

  /** Writes a tagged varint field ending at `i`, unless the value is zero. */
  method PutVarint(d: array<byte>, i: nat, tag: byte, v: uint64) returns (k: nat)
    requires |VarintPart(tag, v)| <= i <= d.Length
    modifies d
    ensures k + |VarintPart(tag, v)| == i
    ensures d[k..i] == VarintPart(tag, v) && OnlyBetween(d, k, i)
  {
    k := i;
    if v != 0 {
      SovIsEncodedLength(v);
      hide Sov, VarintBytes;
      k := PutHeader(d, i, tag, v);
    }
  }

  /** Writes a tagged, length-prefixed field ending at `i`. */
  method PutDelimited(d: array<byte>, i: nat, tag: byte, s: Slice) returns (k: nat)
    requires |Delimited(tag, s)| <= i <= d.Length
    modifies d
    ensures k + |Delimited(tag, s)| == i
    ensures d[k..i] == Delimited(tag, s) && OnlyBetween(d, k, i)
  {
    SovIsEncodedLength(|s|);
    hide Sov, VarintBytes;
    var at := i - |s|;
    forall j | 0 <= j < |s| {
      d[at + j] := s[j];
    }
    assert d[at..i] == s;
    k := PutHeader(d, at, tag, |s|);
    assert d[at..i] == s;
    Adjoin(d, k, at, i);
  }

  method PutBytes(d: array<byte>, i: nat, tag: byte, s: Slice) returns (k: nat)
    requires |BytesPart(tag, s)| <= i <= d.Length
    modifies d
    ensures k + |BytesPart(tag, s)| == i
    ensures d[k..i] == BytesPart(tag, s) && OnlyBetween(d, k, i)
  {
    hide Sov, VarintBytes;
    k := i;
    if |s| > 0 {
      k := PutDelimited(d, k, tag, s);
    }
  }

  /** Last field first, ending at `end`. */
  method MarshalGasInfoTo(d: array<byte>, end: nat, m: GasInfo) returns (i: nat)
    requires GasInfoSize(m) <= end <= d.Length
    modifies d
    ensures i + GasInfoSize(m) == end
    ensures d[i..end] == EncodeGasInfo(m) && OnlyBetween(d, i, end)
  {
    hide VarintPart, GasInfoSize, Sov, VarintBytes;
    GasInfoParts(m);
    var j := PutVarint(d, end, 0x10, m.gasUsed);
    ghost var rest := d[j..end];
    i := PutVarint(d, j, 0x08, m.gasWanted);
    assert d[j..end] == rest;
    Adjoin(d, i, j, end);
  }

  lemma GasInfoParts(m: GasInfo)
    ensures |VarintPart(0x08, m.gasWanted)| + |VarintPart(0x10, m.gasUsed)| == GasInfoSize(m)
  {
    GasInfoSizeExact(m);
  }

  lemma AttributeParts(m: Attribute)
    ensures |BytesPart(0x0a, m.key)| + |BytesPart(0x12, m.value)| == AttributeSize(m)
    ensures |m.key| <= AttributeSize(m) && |m.value| <= AttributeSize(m)
  {
    AttributeSizeExact(m);
  }

  method MarshalAttributeTo(d: array<byte>, end: nat, m: Attribute) returns (i: nat)
    requires AttributeSize(m) <= end <= d.Length < TWO63
    modifies d
    ensures i + AttributeSize(m) == end
    ensures d[i..end] == EncodeAttribute(m) && OnlyBetween(d, i, end)
  {
    hide BytesPart, AttributeSize, Sov, VarintBytes;
    AttributeParts(m);
    var j := PutBytes(d, end, 0x12, m.value);
    ghost var rest := d[j..end];
    i := PutBytes(d, j, 0x0a, m.key);
    assert d[j..end] == rest;
    Adjoin(d, i, j, end);
  }

  /** Attributes from the last to the first, each written before its own length is known. */
  method MarshalAttributesTo(d: array<byte>, end: nat, attributes: seq<Attribute>) returns (i: nat)
    requires AttributesSize(attributes) <= end <= d.Length < TWO63
    modifies d
    ensures i + AttributesSize(attributes) == end
    ensures d[i..end] == EncodeAttributes(attributes) && OnlyBetween(d, i, end)
  {
    hide AttributeSize, EncodeAttribute, Sov, VarintBytes;
    i := end;
    var n := |attributes|;
    assert attributes[..n] == attributes && attributes[n..] == [];
    while n > 0
      invariant 0 <= n <= |attributes|
      invariant AttributesSize(attributes[..n]) <= i <= end
      invariant i + AttributesSize(attributes[n..]) == end
      invariant d[i..end] == EncodeAttributes(attributes[n..]) && OnlyBetween(d, i, end)
    {
      n := n - 1;
      i := MarshalOneOf(d, end, i, attributes, n);
    }
    assert attributes[0..] == attributes;
  }

  lemma {:induction false} SizeSplits(attributes: seq<Attribute>, n: nat)
    requires n < |attributes|
    ensures var l := AttributeSize(attributes[n]);
            && AttributesSize(attributes[..n + 1]) == AttributesSize(attributes[..n]) + 1 + l + Sov(l)
            && AttributesSize(attributes[n..]) == 1 + l + Sov(l) + AttributesSize(attributes[n + 1..])
    decreases n
  {
    assert attributes[n..][1..] == attributes[n + 1..];
    var up, lo := attributes[..n + 1], attributes[..n];
    if n > 0 {
      SizeSplits(attributes[1..], n - 1);
      assert up[1..] == attributes[1..][..n] && lo[1..] == attributes[1..][..n - 1];
    } else {
      assert up[1..] == [];
    }
  }

  /** One attribute in front of the ones after it. */
  method MarshalOneOf(d: array<byte>, ghost end: nat, i0: nat, attributes: seq<Attribute>, n: nat) returns (i: nat)
    requires n < |attributes| && i0 <= end <= d.Length < TWO63
    requires AttributesSize(attributes[..n + 1]) <= i0
    requires d[i0..end] == EncodeAttributes(attributes[n + 1..])
    modifies d
    ensures AttributesSize(attributes[..n]) <= i <= i0
    ensures i + AttributesSize(attributes[n..]) == i0 + AttributesSize(attributes[n + 1..])
    ensures d[i..end] == EncodeAttributes(attributes[n..]) && OnlyBetween(d, i, i0)
  {
    hide AttributeSize, EncodeAttribute, AttributesSize, Sov, VarintBytes;
    ghost var rest := d[i0..end];
    SizeSplits(attributes, n);
    AttributeSizeExact(attributes[n]);
    var at := MarshalAttributeTo(d, i0, attributes[n]);
    ghost var payload := d[at..i0];
    i := PutHeader(d, at, 0x12, i0 - at);
    assert d[at..i0] == payload && d[i0..end] == rest;
    assert attributes[n..][1..] == attributes[n + 1..];
    Adjoin(d, i, at, i0);
    Adjoin(d, i, i0, end);
  }

  lemma StringEventParts(m: StringEvent)
    ensures |BytesPart(0x0a, m.kind)| + AttributesSize(m.attributes) == StringEventSize(m)
    ensures |m.kind| <= StringEventSize(m)
  {
    StringEventSizeExact(m);
    AttributesSizeExact(m.attributes);
  }

  method MarshalStringEventTo(d: array<byte>, end: nat, m: StringEvent) returns (i: nat)
    requires StringEventSize(m) <= end <= d.Length < TWO63
    modifies d
    ensures i + StringEventSize(m) == end
    ensures d[i..end] == EncodeStringEvent(m) && OnlyBetween(d, i, end)
  {
    StringEventParts(m);
    hide BytesPart, StringEventSize, AttributesSize, EncodeAttributes, Sov, VarintBytes;
    var j := MarshalAttributesTo(d, end, m.attributes);
    ghost var rest := d[j..end];
    i := PutBytes(d, j, 0x0a, m.kind);
    assert d[j..end] == rest;
    Adjoin(d, i, j, end);
  }

  /** A buffer of exactly `Size()` bytes is filled to its first byte. */
  method MarshalStringEvent(m: StringEvent) returns (out: Slice)
    requires StringEventSize(m) < TWO63
    ensures out == EncodeStringEvent(m)
  {
    hide StringEventSize, EncodeStringEvent;
    var d := new byte[StringEventSize(m)];
    var i := MarshalStringEventTo(d, d.Length, m);
    assert i == 0;
    out := d[i..];
  }

  method MarshalGasInfo(m: GasInfo) returns (out: Slice)
    ensures out == EncodeGasInfo(m)
  {
    GasInfoSizeExact(m);
    hide GasInfoSize;
    var d := new byte[GasInfoSize(m)];
    var i := MarshalGasInfoTo(d, d.Length, m);
    assert i == 0;
    out := d[i..];
  }

  // ---------------------------------------------------------------- the parser

  /** The varint loop: seven bits at a time, refused once 64 bits have been shifted. */
  method DecodeVarint(data: Slice, start: nat) returns (r: Decoded<(uint64, nat)>)
    ensures r == Varint(data, start)
  {
    var i, shift, v: nat, factor: nat := start, 0, 0, 1;
    while shift < 64
      invariant start <= i && factor == Pow2(shift)
      invariant 0 <= v < TWO64 && VarintAt(data, i, shift, v) == Varint(data, start)
      decreases 64 - shift
    {
      if i >= |data| {
        return Err(UnexpectedEOF);
      }
      var b: nat := data[i];
      i, v := i + 1, (v + b % 128 * factor) % TWO64;
      if b < 128 {
        return Ok((v, i));
      }
      Pow2Adds(shift, 7);
      assert Pow2(7) == 128;
      shift, factor := shift + 7, factor * 128;
    }
    return Err(IntOverflow);
  }

  /** The skipping loop over one field and whatever groups it opens. */
  method SkipAbci(data: Slice) returns (r: Decoded<nat>)
    ensures r == SkipFrom(data, 0, 0)
  {
    hide Varint;
    var i, depth := 0, 0;
    while i < |data|
      invariant 0 <= i && 0 <= depth && SkipFrom(data, i, depth) == SkipFrom(data, 0, 0)
      decreases |data| - i
    {
      var tag := DecodeVarint(data, i);
      if tag.Err? {
        return Err(tag.error);
      }
      var j, depth' := tag.value.1, depth;
      var k: nat := j;
      match tag.value.0 % 8 {
        case 0 =>
          var v := DecodeVarint(data, j);
          if v.Err? {
            return Err(v.error);
          }
          k := v.value.1;
        case 1 => k := j + 8;
        case 2 =>
          var v := DecodeVarint(data, j);
          if v.Err? {
            return Err(v.error);
          }
          if Negative64(v.value.0) {
            return Err(InvalidLength);
          }
          k := v.value.1 + v.value.0;
        case 3 => depth' := depth + 1;
        case 4 =>
          if depth == 0 {
            return Err(UnexpectedEndOfGroup);
          }
          depth' := depth - 1;
        case 5 => k := j + 4;
        case _ => return Err(IllegalWireType);
      }
      if Negative64(k) {
        return Err(InvalidLength);
      }
      if depth' == 0 {
        return Ok(k);
      }
      i, depth := k, depth';
    }
    return Err(UnexpectedEOF);
  }

  /** The parsing loop shared by the generated Unmarshal methods; a known field overwrites or appends, an unknown one is skipped. */
  method Unmarshal<M>(sch: Schema<M>, data: Slice, m0: M) returns (r: Decoded<M>)
    ensures r == Parse(sch, data, 0, m0)
  {
    hide Varint, SkipFrom;
    var i: nat, m := 0, m0;
    while i < |data|
      invariant i <= |data| && Parse(sch, data, i, m) == Parse(sch, data, 0, m0)
      decreases |data| - i
    {
      var tag := DecodeVarint(data, i);
      if tag.Err? {
        return Err(tag.error);
      }
      var (wire, j) := tag.value;
      var num, wireType := Int32(wire / 8), wire % 8;
      if wireType == 4 {
        return Err(EndGroupForNonGroup);
      }
      if num <= 0 {
        return Err(IllegalTag);
      }
      match sch.kind(num) {
        case VarintKind =>
          if wireType != 0 {
            return Err(WrongWireType);
          }
          var v := DecodeVarint(data, j);
          if v.Err? {
            return Err(v.error);
          }
          m, i := sch.setVarint(m, num, v.value.0), v.value.1;
        case BytesKind =>
          if wireType != 2 {
            return Err(WrongWireType);
          }
          var length := DecodeVarint(data, j);
          if length.Err? {
            return Err(length.error);
          }
          var post := length.value.1 + length.value.0;
          if Negative64(length.value.0) || Negative64(post) {
            return Err(InvalidLength);
          }
          if post > |data| {
            return Err(UnexpectedEOF);
          }
          var updated := sch.setBytes(m, num, data[length.value.1..post]);
          if updated.Err? {
            return Err(updated.error);
          }
          m, i := updated.value, post;
        case UnknownKind =>
          var skipped := SkipAbci(data[i..]);
          if skipped.Err? {
            return Err(skipped.error);
          }
          if Negative64(i + skipped.value) {
            return Err(InvalidLength);
          }
          if i + skipped.value > |data| {
            return Err(UnexpectedEOF);
          }
          i := i + skipped.value;
      }
    }
    return Ok(m);
  }
}
