/** Fields on the wire: writing them, skipping them, and parsing a message out of them. */
module WireFields {
  import opened Wrappers
  import opened ByteStrings
  import opened Wire

  // ---------------------------------------------------------------- well-formed fields

  /** A field as the wire format defines it; groups nest. */
  datatype Field =
    | VarintField(num: nat, v: uint64)
    | Fixed64Field(num: nat, bs: Slice)
    | BytesField(num: nat, bs: Slice)
    | GroupField(num: nat, fields: seq<Field>)
    | Fixed32Field(num: nat, bs: Slice)

  function Tag(num: nat, wireType: nat): Bytes {
    VarintBytes(num * 8 + wireType)
  }

  function EncodeField(f: Field): (s: Bytes)
    ensures 1 <= |s|
    decreases f
  {
    match f
    case VarintField(num, v) => Tag(num, 0) + VarintBytes(v)
    case Fixed64Field(num, bs) => Tag(num, 1) + bs
    case BytesField(num, bs) => Tag(num, 2) + VarintBytes(|bs|) + bs
    case GroupField(num, fields) => Tag(num, 3) + EncodeFields(fields) + Tag(num, 4)
    case Fixed32Field(num, bs) => Tag(num, 5) + bs
  }

  function EncodeFields(fs: seq<Field>): Bytes
    decreases fs
  {
    if fs == [] then [] else EncodeField(fs[0]) + EncodeFields(fs[1..])
  }

  /** The wire type of a field. */
  function WireType(f: Field): nat {
    match f
    case VarintField(_, _) => 0
    case Fixed64Field(_, _) => 1
    case BytesField(_, _) => 2
    case GroupField(_, _) => 3
    case Fixed32Field(_, _) => 5
  }

  function Payload(f: Field): Bytes {
    match f
    case VarintField(num, v) => VarintBytes(v)
    case Fixed64Field(num, bs) => bs
    case BytesField(num, bs) => VarintBytes(|bs|) + bs
    case GroupField(num, fields) => EncodeFields(fields) + Tag(num, 4)
    case Fixed32Field(num, bs) => bs
  }

  lemma EncodeFieldSplits(f: Field)
    ensures EncodeField(f) == Tag(f.num, WireType(f)) + Payload(f)
  {
  }

  predicate WellFormed(f: Field)
    decreases f
  {
    && 1 <= f.num < 0x2000_0000
    && match f
       case Fixed64Field(_, bs) => |bs| == 8
       case Fixed32Field(_, bs) => |bs| == 4
       case GroupField(_, fields) => WellFormedAll(fields)
       case _ => true
  }

  predicate WellFormedAll(fs: seq<Field>)
    decreases fs
  {
    fs == [] || (WellFormed(fs[0]) && WellFormedAll(fs[1..]))
  }

  // ---------------------------------------------------------------- skipping

  /** The position after the payload of a field of the given wire type, and the group depth after it. */
  function SkipPayload(data: Slice, j: nat, wireType: nat, depth: nat): (r: Decoded<(nat, nat)>)
    ensures r.Ok? ==> j <= r.value.0
  {
    match wireType
    case 0 => (match Varint(data, j) case Err(e) => Err(e) case Ok(v) => Ok((v.1, depth)))
    case 1 => Ok((j + 8, depth))
    case 2 =>
      (match Varint(data, j)
       case Err(e) => Err(e)
       case Ok(v) => if Negative64(v.0) then Err(InvalidLength) else Ok((v.1 + v.0, depth)))
    case 3 => Ok((j, depth + 1))
    case 4 => if depth == 0 then Err(UnexpectedEndOfGroup) else Ok((j, depth - 1))
    case 5 => Ok((j + 4, depth))
    case _ => Err(IllegalWireType)
  }

  /** The skipping loop: it returns at the first position where no group is open. */
  function SkipFrom(data: Slice, i: nat, depth: nat): (r: Decoded<nat>)
    ensures r.Ok? ==> i < r.value
    decreases |data| - i
  {
    if i >= |data| then Err(UnexpectedEOF)
    else match Varint(data, i)
      case Err(e) => Err(e)
      case Ok(tag) =>
        match SkipPayload(data, tag.1, tag.0 % 8, depth)
        case Err(e) => Err(e)
        case Ok((k, depth')) =>
          if Negative64(k) then Err(InvalidLength)
          else if depth' == 0 then Ok(k)
          else SkipFrom(data, k, depth')
  }

  lemma TagAt(data: Slice, i: nat, num: nat, wireType: nat)
    requires num < 0x2000_0000 && wireType < 8 && At(data, i, Tag(num, wireType))
    ensures Varint(data, i) == Ok((num * 8 + wireType, i + |Tag(num, wireType)|))
    ensures (num * 8 + wireType) % 8 == wireType && (num * 8 + wireType) / 8 == num
  {
    hide Varint, VarintBytes, At;
    VarintRoundTrip(data, i, num * 8 + wireType);
  }

  /** Where the skipping loop goes from `k`. */
  function SkipNext(data: Slice, k: nat, depth: nat): Decoded<nat> {
    if depth == 0 then Ok(k) else SkipFrom(data, k, depth)
  }

  lemma PayloadSkipped(data: Slice, j: nat, depth: nat, f: Field)
    requires WellFormed(f) && !f.GroupField? && At(data, j, Payload(f))
    ensures SkipPayload(data, j, WireType(f), depth) == Ok((j + |Payload(f)|, depth))
  {
    hide VarintAt, VarintBytes;
    match f
    case VarintField(num, v) => VarintRoundTrip(data, j, v);
    case BytesField(num, bs) =>
      AtConcat(data, j, VarintBytes(|bs|), bs);
      VarintRoundTrip(data, j, |bs|);
    case _ =>
  }

  /** A well-formed field, whatever it nests, is skipped as a whole. */
  lemma {:induction false} SkipField(data: Slice, i: nat, depth: nat, f: Field)
    requires WellFormed(f) && At(data, i, EncodeField(f))
    ensures SkipFrom(data, i, depth) == SkipNext(data, i + |EncodeField(f)|, depth)
    decreases f
  {
    hide Varint, Tag, EncodeField, EncodeFields, SkipPayload;
    var j := i + |Tag(f.num, WireType(f))|;
    EncodeFieldSplits(f);
    AtConcat(data, i, Tag(f.num, WireType(f)), Payload(f));
    TagAt(data, i, f.num, WireType(f));
    if !f.GroupField? {
      PayloadSkipped(data, j, depth, f);
    } else {
      assert SkipPayload(data, j, 3, depth) == Ok((j, depth + 1)) by { GroupTags(data, j, depth); }
      assert SkipFrom(data, i, depth) == SkipFrom(data, j, depth + 1);
      AtConcat(data, j, EncodeFields(f.fields), Tag(f.num, 4));
      SkipFields(data, j, depth + 1, f.fields);
      SkipGroupEnd(data, j + |EncodeFields(f.fields)|, depth, f.num);
    }
  }

  lemma GroupTags(data: Slice, j: nat, depth: nat)
    ensures SkipPayload(data, j, 3, depth) == Ok((j, depth + 1))
    ensures SkipPayload(data, j, 4, depth + 1) == Ok((j, depth))
  {
  }

  lemma SkipGroupEnd(data: Slice, i: nat, depth: nat, num: nat)
    requires num < 0x2000_0000 && At(data, i, Tag(num, 4))
    ensures SkipFrom(data, i, depth + 1) == SkipNext(data, i + |Tag(num, 4)|, depth)
  {
    hide Varint, SkipPayload;
    TagAt(data, i, num, 4);
    GroupTags(data, i + |Tag(num, 4)|, depth);
  }

  lemma {:induction false} SkipFields(data: Slice, i: nat, depth: nat, fs: seq<Field>)
    requires 0 < depth && WellFormedAll(fs) && At(data, i, EncodeFields(fs))
    ensures SkipFrom(data, i, depth) == SkipFrom(data, i + |EncodeFields(fs)|, depth)
    decreases fs
  {
    hide SkipFrom, EncodeField, WellFormed;
    if fs != [] {
      AtConcat(data, i, EncodeField(fs[0]), EncodeFields(fs[1..]));
      SkipField(data, i, depth, fs[0]);
      SkipFields(data, i + |EncodeField(fs[0])|, depth, fs[1..]);
    }
  }

  // ---------------------------------------------------------------- parsing a message

  datatype Kind = VarintKind | BytesKind | UnknownKind

  /** What a message type does with its fields. */
  datatype Schema<!M> = Schema(
    kind: int -> Kind,
    setVarint: (M, int, uint64) -> M,
    setBytes: (M, int, Slice) -> Decoded<M>)

  /** A length-delimited payload: its bytes and the position after it. */
  function ReadBytes(data: Slice, i: nat): (r: Decoded<(Slice, nat)>)
    ensures r.Ok? ==> i < r.value.1 <= |data|
  {
    match Varint(data, i)
    case Err(e) => Err(e)
    case Ok((length, j)) =>
      if Negative64(length) || Negative64(j + length) then Err(InvalidLength)
      else if j + length > |data| then Err(UnexpectedEOF)
      else Ok((data[j..j + length], j + length))
  }

  /** One field of a message at position `i`: the message after it and the position after it. */
  function ParseField<M>(sch: Schema<M>, data: Slice, i: nat, m: M): (r: Decoded<(M, nat)>)
    requires i < |data|
    ensures r.Ok? ==> i < r.value.1 <= |data|
  {
    match Varint(data, i)
    case Err(e) => Err(e)
    case Ok((wire, j)) =>
      var num, wireType := Int32(wire / 8), wire % 8;
      if wireType == 4 then Err(EndGroupForNonGroup)
      else if num <= 0 then Err(IllegalTag)
      else match sch.kind(num)
        case VarintKind =>
          if wireType != 0 then Err(WrongWireType)
          else (match Varint(data, j)
                case Err(e) => Err(e)
                case Ok((v, k)) => Ok((sch.setVarint(m, num, v), k)))
        case BytesKind =>
          if wireType != 2 then Err(WrongWireType)
          else (match ReadBytes(data, j)
                case Err(e) => Err(e)
                case Ok((bs, k)) => (match sch.setBytes(m, num, bs) case Err(e) => Err(e) case Ok(m') => Ok((m', k))))
        case UnknownKind =>
          match SkipFrom(data[i..], 0, 0)
          case Err(e) => Err(e)
          case Ok(n) =>
            if Negative64(i + n) then Err(InvalidLength)
            else if i + n > |data| then Err(UnexpectedEOF)
            else Ok((m, i + n))
  }

  /** The parsing loop of a message: every step advances, so it ends. */
  function Parse<M>(sch: Schema<M>, data: Slice, i: nat, m: M): Decoded<M>
    requires i <= |data|
    decreases |data| - i
  {
    if i == |data| then Ok(m)
    else match ParseField(sch, data, i, m)
      case Err(e) => Err(e)
      case Ok((m', k)) => Parse(sch, data, k, m')
  }

  /** What a well-formed field means for a message, read off the field itself. */
  function Apply<M>(sch: Schema<M>, m: M, f: Field): Decoded<M>
  {
    match sch.kind(f.num)
    case VarintKind => if f.VarintField? then Ok(sch.setVarint(m, f.num, f.v)) else Err(WrongWireType)
    case BytesKind => if f.BytesField? then sch.setBytes(m, f.num, f.bs) else Err(WrongWireType)
    case UnknownKind => Ok(m)
  }

  function ApplyAll<M>(sch: Schema<M>, m: M, fs: seq<Field>): Decoded<M>
  {
    if fs == [] then Ok(m)
    else match Apply(sch, m, fs[0])
      case Err(e) => Err(e)
      case Ok(m') => ApplyAll(sch, m', fs[1..])
  }

  lemma {:induction false} ApplyConcat<M>(sch: Schema<M>, m: M, fs: seq<Field>, gs: seq<Field>)
    ensures ApplyAll(sch, m, fs + gs) ==
              match ApplyAll(sch, m, fs)
              case Err(e) => Err(e)
              case Ok(m') => ApplyAll(sch, m', gs)
    decreases fs
  {
    if fs == [] {
      assert fs + gs == gs;
    } else {
      assert (fs + gs)[1..] == fs[1..] + gs;
      var r := Apply(sch, m, fs[0]);
      if r.Ok? {
        ApplyConcat(sch, r.value, fs[1..], gs);
      }
    }
  }

  lemma ApplyOne<M>(sch: Schema<M>, m: M, f: Field)
    ensures ApplyAll(sch, m, [f]) == Apply(sch, m, f)
  {
    var r := Apply(sch, m, f);
    if r.Ok? {
      assert ApplyAll(sch, r.value, [f][1..]) == r;
    }
  }

  lemma ApplyFirst<M>(sch: Schema<M>, m: M, f: Field, rest: seq<Field>)
    requires Apply(sch, m, f).Ok?
    ensures ApplyAll(sch, m, [f] + rest) == ApplyAll(sch, Apply(sch, m, f).value, rest)
  {
    assert ([f] + rest)[1..] == rest;
  }

  lemma ReadBytesAt(data: Slice, i: nat, bs: Slice)
    requires At(data, i, VarintBytes(|bs|) + bs)
    ensures ReadBytes(data, i) == Ok((bs, i + |VarintBytes(|bs|) + bs|))
  {
    hide Varint, VarintBytes;
    AtConcat(data, i, VarintBytes(|bs|), bs);
    VarintRoundTrip(data, i, |bs|);
  }

  /** Parsing a field that stands at `i` applies it and moves behind it. */
  lemma ParseFieldApplies<M>(sch: Schema<M>, data: Slice, i: nat, m: M, f: Field)
    requires WellFormed(f) && At(data, i, EncodeField(f))
    ensures i < |data|
    ensures ParseField(sch, data, i, m) ==
              match Apply(sch, m, f)
              case Err(e) => Err(e)
              case Ok(m') => Ok((m', i + |EncodeField(f)|))
  {
    hide Varint, VarintBytes, SkipFrom, Tag, EncodeField, EncodeFields, ReadBytes;
    var j := i + |Tag(f.num, WireType(f))|;
    EncodeFieldSplits(f);
    AtConcat(data, i, Tag(f.num, WireType(f)), Payload(f));
    TagAt(data, i, f.num, WireType(f));
    match sch.kind(f.num)
    case VarintKind =>
      if f.VarintField? {
        VarintRoundTrip(data, j, f.v);
      }
    case BytesKind =>
      if f.BytesField? {
        ReadBytesAt(data, j, f.bs);
      }
    case UnknownKind =>
      assert At(data[i..], 0, EncodeField(f));
      SkipField(data[i..], 0, 0, f);
  }

  /**
    Parsing any sequence of well-formed fields, known or unknown, in any order and repeated at will, is
    applying them one after another.
   */
  lemma {:induction false} ParseApplies<M>(sch: Schema<M>, data: Slice, i: nat, m: M, fs: seq<Field>)
    requires WellFormedAll(fs) && At(data, i, EncodeFields(fs)) && i + |EncodeFields(fs)| == |data|
    ensures Parse(sch, data, i, m) == ApplyAll(sch, m, fs)
    decreases fs
  {
    hide ParseField, EncodeField, WellFormed, Apply;
    if fs != [] {
      AtConcat(data, i, EncodeField(fs[0]), EncodeFields(fs[1..]));
      ParseFieldApplies(sch, data, i, m, fs[0]);
      var r := Apply(sch, m, fs[0]);
      if r.Ok? {
        ParseApplies(sch, data, i + |EncodeField(fs[0])|, r.value, fs[1..]);
      }
    }
  }

  /** The fields the message knows. */
  function DropUnknown<M>(sch: Schema<M>, fs: seq<Field>): (r: seq<Field>)
    ensures forall i :: 0 <= i < |r| ==> !sch.kind(r[i].num).UnknownKind?
  {
    if fs == [] then []
    else if sch.kind(fs[0].num).UnknownKind? then DropUnknown(sch, fs[1..])
    else [fs[0]] + DropUnknown(sch, fs[1..])
  }

  /** Unknown fields have no effect, wherever they stand between known ones. */
  lemma {:induction false} UnknownFieldsIgnored<M>(sch: Schema<M>, m: M, fs: seq<Field>)
    ensures ApplyAll(sch, m, fs) == ApplyAll(sch, m, DropUnknown(sch, fs))
  {
    if fs != [] {
      var r := Apply(sch, m, fs[0]);
      if r.Ok? {
        UnknownFieldsIgnored(sch, r.value, fs[1..]);
      }
      if !sch.kind(fs[0].num).UnknownKind? {
        assert DropUnknown(sch, fs)[1..] == DropUnknown(sch, fs[1..]);
      }
    }
  }

  lemma {:induction false} DroppingShrinks<M>(sch: Schema<M>, fs: seq<Field>)
    requires WellFormedAll(fs)
    ensures WellFormedAll(DropUnknown(sch, fs)) && |EncodeFields(DropUnknown(sch, fs))| <= |EncodeFields(fs)|
  {
    hide WellFormed, EncodeField;
    if fs != [] {
      DroppingShrinks(sch, fs[1..]);
      if !sch.kind(fs[0].num).UnknownKind? {
        assert DropUnknown(sch, fs)[1..] == DropUnknown(sch, fs[1..]);
      }
    }
  }

  /** On the bytes: a message parses as it would without its unknown fields, errors included. */
  lemma UnknownBytesIgnored<M>(sch: Schema<M>, m: M, fs: seq<Field>)
    requires WellFormedAll(fs) && |EncodeFields(fs)| < TWO63
    ensures |EncodeFields(DropUnknown(sch, fs))| < TWO63
    ensures Parse(sch, EncodeFields(fs), 0, m) == Parse(sch, EncodeFields(DropUnknown(sch, fs)), 0, m)
  {
    hide *;
    DroppingShrinks(sch, fs);
    WholeIsAt(EncodeFields(fs));
    WholeIsAt(EncodeFields(DropUnknown(sch, fs)));
    ParseApplies(sch, EncodeFields(fs), 0, m, fs);
    ParseApplies(sch, EncodeFields(DropUnknown(sch, fs)), 0, m, DropUnknown(sch, fs));
    UnknownFieldsIgnored(sch, m, fs);
  }

  lemma WholeIsAt(s: Bytes)
    ensures At(s, 0, s)
  {
  }
}
