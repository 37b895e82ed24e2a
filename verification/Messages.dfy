/** GasInfo, Attribute and StringEvent: writing them back to front, parsing them, and the round trip. */
module Messages {
  import opened Wrappers
  import opened ByteStrings
  import opened Wire
  import opened WireFields

  datatype GasInfo = GasInfo(gasWanted: uint64, gasUsed: uint64)
  datatype Attribute = Attribute(key: Bytes, value: Bytes)
  datatype StringEvent = StringEvent(kind: Bytes, attributes: seq<Attribute>)

  // ---------------------------------------------------------------- what each message does with its fields

  function GasInfoSchema(): Schema<GasInfo> {
    Schema(
      (n: int) => if n == 1 || n == 2 then VarintKind else UnknownKind,
      (m: GasInfo, n: int, v: uint64) => if n == 1 then m.(gasWanted := v) else m.(gasUsed := v),
      (m: GasInfo, n: int, bs: Slice) => Ok(m))
  }

  function AttributeSchema(): Schema<Attribute> {
    Schema(
      (n: int) => if n == 1 || n == 2 then BytesKind else UnknownKind,
      (m: Attribute, n: int, v: uint64) => m,
      (m: Attribute, n: int, bs: Slice) => Ok(if n == 1 then m.(key := bs) else m.(value := bs)))
  }

  const EMPTY_ATTRIBUTE: Attribute := Attribute([], [])

  /** Attributes are messages of their own, parsed from scratch and appended. */
  function StringEventSchema(): Schema<StringEvent> {
    Schema(
      (n: int) => if n == 1 || n == 2 then BytesKind else UnknownKind,
      (m: StringEvent, n: int, v: uint64) => m,
      (m: StringEvent, n: int, bs: Slice) =>
        if n == 1 then Ok(m.(kind := bs))
        else match Parse(AttributeSchema(), bs, 0, EMPTY_ATTRIBUTE)
          case Err(e) => Err(e)
          case Ok(a) => Ok(m.(attributes := m.attributes + [a])))
  }

  function ParseGasInfo(data: Slice): Decoded<GasInfo> {
    Parse(GasInfoSchema(), data, 0, GasInfo(0, 0))
  }

  function ParseAttribute(data: Slice): Decoded<Attribute> {
    Parse(AttributeSchema(), data, 0, EMPTY_ATTRIBUTE)
  }

  function ParseStringEvent(data: Slice): Decoded<StringEvent> {
    Parse(StringEventSchema(), data, 0, StringEvent([], []))
  }

  // ---------------------------------------------------------------- the bytes of each message

  /** Zero values are not written. */
  function VarintPart(tag: byte, v: uint64): Bytes {
    if v == 0 then [] else [tag] + VarintBytes(v)
  }

  function Delimited(tag: byte, s: Bytes): Bytes {
    [tag] + VarintBytes(|s|) + s
  }

  function BytesPart(tag: byte, s: Bytes): Bytes {
    if s == [] then [] else Delimited(tag, s)
  }

  function EncodeGasInfo(m: GasInfo): (s: Bytes)
    ensures |s| <= 22
  {
    VarintIsShort(m.gasWanted);
    VarintIsShort(m.gasUsed);
    VarintPart(0x08, m.gasWanted) + VarintPart(0x10, m.gasUsed)
  }

  function EncodeAttribute(m: Attribute): Bytes {
    BytesPart(0x0a, m.key) + BytesPart(0x12, m.value)
  }

  /** Repeated messages are always written, even when empty. */
  function EncodeAttributes(attributes: seq<Attribute>): Bytes {
    if attributes == [] then [] else Delimited(0x12, EncodeAttribute(attributes[0])) + EncodeAttributes(attributes[1..])
  }

  function EncodeStringEvent(m: StringEvent): Bytes {
    BytesPart(0x0a, m.kind) + EncodeAttributes(m.attributes)
  }

  // ---------------------------------------------------------------- sizes

  function VarintPartSize(v: nat): nat {
    if v == 0 then 0 else 1 + Sov(v)
  }

  function BytesPartSize(length: nat): nat {
    if length == 0 then 0 else 1 + length + Sov(length)
  }

  function GasInfoSize(m: GasInfo): nat {
    VarintPartSize(m.gasWanted) + VarintPartSize(m.gasUsed)
  }

  function AttributeSize(m: Attribute): nat {
    BytesPartSize(|m.key|) + BytesPartSize(|m.value|)
  }

  function AttributesSize(attributes: seq<Attribute>): nat {
    if attributes == [] then 0
    else var l := AttributeSize(attributes[0]); 1 + l + Sov(l) + AttributesSize(attributes[1..])
  }

  function StringEventSize(m: StringEvent): nat {
    BytesPartSize(|m.kind|) + AttributesSize(m.attributes)
  }

  /** Every Size function counts exactly the bytes written. */
  lemma GasInfoSizeExact(m: GasInfo)
    ensures GasInfoSize(m) == |EncodeGasInfo(m)|
  {
    SovIsEncodedLength(m.gasWanted);
    SovIsEncodedLength(m.gasUsed);
  }

  lemma AttributeSizeExact(m: Attribute)
    ensures AttributeSize(m) == |EncodeAttribute(m)|
  {
    SovIsEncodedLength(|m.key|);
    SovIsEncodedLength(|m.value|);
  }

  lemma {:induction false} AttributesSizeExact(attributes: seq<Attribute>)
    ensures AttributesSize(attributes) == |EncodeAttributes(attributes)|
  {
    if attributes != [] {
      AttributeSizeExact(attributes[0]);
      SovIsEncodedLength(AttributeSize(attributes[0]));
      AttributesSizeExact(attributes[1..]);
    }
  }

  lemma StringEventSizeExact(m: StringEvent)
    ensures StringEventSize(m) == |EncodeStringEvent(m)|
  {
    SovIsEncodedLength(|m.kind|);
    AttributesSizeExact(m.attributes);
  }

  // ---------------------------------------------------------------- round trips

  function VarintFields(num: nat, v: uint64): seq<Field> {
    if v == 0 then [] else [VarintField(num, v)]
  }

  function BytesFields(num: nat, s: Slice): seq<Field> {
    if s == [] then [] else [BytesField(num, s)]
  }

  lemma SmallTag(num: nat, wireType: nat)
    requires num * 8 + wireType < 128
    ensures Tag(num, wireType) == [num * 8 + wireType]
  {
  }

  lemma {:induction false} EncodeFieldsConcat(fs: seq<Field>, gs: seq<Field>)
    ensures EncodeFields(fs + gs) == EncodeFields(fs) + EncodeFields(gs)
    ensures WellFormedAll(fs) && WellFormedAll(gs) ==> WellFormedAll(fs + gs)
  {
    if fs == [] {
      assert fs + gs == gs;
    } else {
      assert (fs + gs)[1..] == fs[1..] + gs;
      EncodeFieldsConcat(fs[1..], gs);
    }
  }

  lemma VarintPartIsField(num: nat, v: uint64)
    requires 1 <= num < 16
    ensures EncodeFields(VarintFields(num, v)) == VarintPart(num * 8, v) && WellFormedAll(VarintFields(num, v))
  {
    hide VarintBytes;
    SmallTag(num, 0);
    if v != 0 {
      var f := VarintField(num, v);
      assert [f][1..] == [] && EncodeFields([f]) == EncodeField(f) + EncodeFields([]);
    }
  }

  lemma DelimitedIsField(num: nat, s: Slice)
    requires 1 <= num < 15
    ensures EncodeFields([BytesField(num, s)]) == Delimited(num * 8 + 2, s) && WellFormedAll([BytesField(num, s)])
  {
    hide VarintBytes;
    SmallTag(num, 2);
    var f := BytesField(num, s);
    assert [f][1..] == [] && EncodeFields([f]) == EncodeField(f) + EncodeFields([]);
  }

  lemma GasInfoRoundTrip(m: GasInfo)
    ensures ParseGasInfo(EncodeGasInfo(m)) == Ok(m)
  {
    hide VarintBytes, EncodeField, Parse;
    var sch, f, g := GasInfoSchema(), VarintFields(1, m.gasWanted), VarintFields(2, m.gasUsed);
    VarintPartIsField(1, m.gasWanted);
    VarintPartIsField(2, m.gasUsed);
    EncodeFieldsConcat(f, g);
    ParseApplies(sch, EncodeGasInfo(m), 0, GasInfo(0, 0), f + g);
    ApplyConcat(sch, GasInfo(0, 0), f, g);
    ApplyOne(sch, GasInfo(0, 0), VarintField(1, m.gasWanted));
    ApplyOne(sch, GasInfo(m.gasWanted, 0), VarintField(2, m.gasUsed));
  }

  lemma AttributeRoundTrip(m: Attribute)
    requires |EncodeAttribute(m)| < TWO63
    ensures ParseAttribute(EncodeAttribute(m)) == Ok(m)
  {
    hide VarintBytes, EncodeField, Parse;
    var sch, f, g := AttributeSchema(), BytesFields(1, m.key), BytesFields(2, m.value);
    DelimitedIsField(1, m.key);
    DelimitedIsField(2, m.value);
    EncodeFieldsConcat(f, g);
    ParseApplies(sch, EncodeAttribute(m), 0, EMPTY_ATTRIBUTE, f + g);
    ApplyConcat(sch, EMPTY_ATTRIBUTE, f, g);
    ApplyOne(sch, EMPTY_ATTRIBUTE, BytesField(1, m.key));
    ApplyOne(sch, Attribute(m.key, []), BytesField(2, m.value));
  }

  /** Each attribute fits a slice. */
  predicate Fits(attributes: seq<Attribute>) {
    |EncodeAttributes(attributes)| < TWO63
  }

  function AttributesFields(attributes: seq<Attribute>): seq<Field>
    requires Fits(attributes)
  {
    if attributes == [] then []
    else [BytesField(2, EncodeAttribute(attributes[0]))] + AttributesFields(attributes[1..])
  }

  lemma {:induction false} AttributesAreFields(attributes: seq<Attribute>)
    requires Fits(attributes)
    ensures EncodeFields(AttributesFields(attributes)) == EncodeAttributes(attributes)
    ensures WellFormedAll(AttributesFields(attributes))
  {
    hide VarintBytes, EncodeField, EncodeAttribute;
    if attributes != [] {
      var e := EncodeAttribute(attributes[0]);
      DelimitedIsField(2, e);
      AttributesAreFields(attributes[1..]);
      EncodeFieldsConcat([BytesField(2, e)], AttributesFields(attributes[1..]));
    }
  }

  lemma AttributeApplies(m: StringEvent, a: Attribute)
    requires |EncodeAttribute(a)| < TWO63
    ensures Apply(StringEventSchema(), m, BytesField(2, EncodeAttribute(a))) == Ok(m.(attributes := m.attributes + [a]))
  {
    hide EncodeAttribute, Parse;
    AttributeRoundTrip(a);
  }

  lemma {:induction false} AttributesApply(m: StringEvent, attributes: seq<Attribute>)
    requires Fits(attributes)
    ensures ApplyAll(StringEventSchema(), m, AttributesFields(attributes)) == Ok(m.(attributes := m.attributes + attributes))
    decreases |attributes|
  {
    hide VarintBytes, EncodeAttribute, Apply, StringEventSchema;
    if attributes == [] {
      assert m.attributes + [] == m.attributes;
    } else {
      var a, rest := attributes[0], attributes[1..];
      var m' := m.(attributes := m.attributes + [a]);
      AttributeApplies(m, a);
      ApplyFirst(StringEventSchema(), m, BytesField(2, EncodeAttribute(a)), AttributesFields(rest));
      AttributesApply(m', rest);
      assert m'.attributes + rest == m.attributes + attributes;
    }
  }

  /** The round trip of a nested message with repeated fields. */
  lemma StringEventRoundTrip(m: StringEvent)
    requires |EncodeStringEvent(m)| < TWO63
    ensures ParseStringEvent(EncodeStringEvent(m)) == Ok(m)
  {
    hide VarintBytes, EncodeField, Parse;
    var sch, empty, typed := StringEventSchema(), StringEvent([], []), StringEvent(m.kind, []);
    var f, g := BytesFields(1, m.kind), AttributesFields(m.attributes);
    DelimitedIsField(1, m.kind);
    AttributesAreFields(m.attributes);
    EncodeFieldsConcat(f, g);
    ParseApplies(sch, EncodeStringEvent(m), 0, empty, f + g);
    ApplyConcat(sch, empty, f, g);
    ApplyOne(sch, empty, BytesField(1, m.kind));
    AttributesApply(typed, m.attributes);
    assert [] + m.attributes == m.attributes;
  }
}
