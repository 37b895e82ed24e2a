/** What the parser accepts: exactly the byte strings that are fields one after another, in any valid writing of them. */
module WireGrammar {
  import opened Wrappers
  import opened Bits
  import opened ByteStrings
  import opened Wire
  import opened WireFields

  // ---------------------------------------------------------------- varints

  function Base128(s: Bytes): nat {
    if s == [] then 0 else s[0] % 128 + 128 * Base128(s[1..])
  }

  /** The high bit is set on all bytes but the last. */
  predicate Continued(s: Bytes) {
    1 <= |s| && s[|s| - 1] < 128 && forall i :: 0 <= i < |s| - 1 ==> 128 <= s[i]
  }

  /** At most ten bytes; leading zero groups are allowed, and bits past the 64th are. */
  predicate IsVarint(s: Bytes) {
    Continued(s) && |s| <= 10
  }

  function Number(s: Bytes): uint64 {
    Base128(s) % TWO64
  }

  lemma WrapTwice(x: nat, y: nat)
    ensures (x % TWO64 + y) % TWO64 == (x + y) % TWO64
  {
  }

  lemma NextGroup(low: nat, rest: nat, p: nat)
    ensures (low + 128 * rest) * p == low * p + rest * (p * 128)
  {
  }

  lemma {:induction false} VarintAtReads(data: Bytes, i: nat, shift: nat, acc: uint64, s: Bytes)
    requires At(data, i, s) && Continued(s) && shift + 7 * (|s| - 1) < 64
    ensures 0 <= Base128(s) * Pow2(shift)
    ensures VarintAt(data, i, shift, acc) == Ok(((acc + Base128(s) * Pow2(shift)) % TWO64, i + |s|))
    decreases |s|
  {
    hide Pow2;
    var low, p := s[0] % 128, Pow2(shift);
    assert data[i] == s[0];
    if |s| == 1 {
      assert Base128(s[1..]) == 0;
    } else {
      assert At(data, i + 1, s[1..]);
      var acc' := (acc + low * p) % TWO64;
      VarintAtReads(data, i + 1, shift + 7, acc', s[1..]);
      Pow2By7(shift);
      var rest := Base128(s[1..]);
      NextGroup(low, rest, p);
      WrapTwice(acc + low * p, rest * (p * 128));
    }
  }

  lemma Pow2By7(shift: nat)
    ensures Pow2(shift + 7) == Pow2(shift) * 128
  {
    Pow2Adds(shift, 7);
    assert Pow2(7) == 128;
  }

  lemma VarintReads(data: Bytes, i: nat, s: Bytes)
    requires At(data, i, s) && IsVarint(s)
    ensures Varint(data, i) == Ok((Number(s), i + |s|))
  {
    hide VarintAt, Base128, At, Continued;
    VarintAtReads(data, i, 0, 0, s);
    assert Pow2(0) == 1;
  }

  lemma {:induction false} VarintAtIsRead(data: Bytes, i: nat, shift: nat, acc: uint64)
    requires VarintAt(data, i, shift, acc).Ok?
    ensures var s := data[i..VarintAt(data, i, shift, acc).value.1];
            Continued(s) && shift + 7 * (|s| - 1) < 64
    decreases |data| - i
  {
    hide Pow2;
    if 128 <= data[i] {
      var acc' := (acc + data[i] % 128 * Pow2(shift)) % TWO64;
      VarintAtIsRead(data, i + 1, shift + 7, acc');
      var k := VarintAt(data, i, shift, acc).value.1;
      assert data[i..k] == [data[i]] + data[i + 1..k];
    }
  }

  /** The varint loop takes exactly the varints, and as what they say. */
  lemma VarintIff(data: Bytes, i: nat, v: uint64, k: nat)
    ensures Varint(data, i) == Ok((v, k)) <==> i < k <= |data| && IsVarint(data[i..k]) && v == Number(data[i..k])
  {
    hide VarintAt, Number, IsVarint;
    if Varint(data, i) == Ok((v, k)) {
      ReadIsVarint(data, i);
      VarintReads(data, i, data[i..k]);
    } else if i < k <= |data| && IsVarint(data[i..k]) {
      VarintReads(data, i, data[i..k]);
    }
  }

  lemma ReadIsVarint(data: Bytes, i: nat)
    requires Varint(data, i).Ok?
    ensures IsVarint(data[i..Varint(data, i).value.1])
  {
    VarintAtIsRead(data, i, 0, 0);
  }

  // ---------------------------------------------------------------- fields

  predicate IsTag(t: Bytes, num: nat, wireType: nat) {
    IsVarint(t) && Number(t) % 8 == wireType && Number(t) / 8 % 0x1_0000_0000 == num
  }

  /** An end tag closes whatever group is open: its number is not looked at. */
  predicate EndsGroup(t: Bytes) {
    IsVarint(t) && Number(t) % 8 == 4
  }

  /** `s` is a writing of the field `f`. */
  ghost predicate Writes(s: Bytes, f: Field)
    decreases f, 1
  {
    exists n :: 0 <= n <= |s| && IsTag(s[..n], f.num, WireType(f)) && WritesPayload(s[n..], f)
  }

  ghost predicate WritesPayload(p: Bytes, f: Field)
    decreases f, 0
  {
    match f
    case VarintField(_, v) => IsVarint(p) && Number(p) == v
    case Fixed64Field(_, bs) => |p| == 8 && p == bs
    case BytesField(_, bs) => exists n :: 0 <= n <= |p| && IsVarint(p[..n]) && Number(p[..n]) == |bs| && p[n..] == bs
    case GroupField(_, fields) => exists n :: 0 <= n <= |p| && WritesAll(p[..n], fields) && EndsGroup(p[n..])
    case Fixed32Field(_, bs) => |p| == 4 && p == bs
  }

  ghost predicate WritesAll(s: Bytes, fs: seq<Field>)
    decreases fs
  {
    if fs == [] then s == []
    else exists n :: 0 <= n <= |s| && Writes(s[..n], fs[0]) && WritesAll(s[n..], fs[1..])
  }

  /** A top-level field has a positive number. */
  predicate Named(f: Field) {
    1 <= f.num < 0x8000_0000
  }

  predicate AllNamed(fs: seq<Field>) {
    forall i :: 0 <= i < |fs| ==> Named(fs[i])
  }

  /** A length is invalid exactly if the end it announces is no signed 64-bit position, and data ends early if it is one behind the data. */
  lemma LengthErrors(data: Slice, i: nat)
    requires Varint(data, i).Ok?
    ensures var (length, j) := Varint(data, i).value;
            && (ReadBytes(data, i) == Err(InvalidLength) <==> TWO63 <= j + length)
            && (ReadBytes(data, i) == Err(UnexpectedEOF) <==> |data| < j + length < TWO63)
  {
    hide Varint;
  }

  // ---------------------------------------------------------------- everything accepted is written so

  lemma TagThenPayload(data: Slice, i: nat, k: nat, f: Field)
    requires Varint(data, i).Ok? && Varint(data, i).value.0 % 8 == WireType(f)
    requires Varint(data, i).value.0 / 8 % 0x1_0000_0000 == f.num
    requires Varint(data, i).value.1 <= k <= |data| && WritesPayload(data[Varint(data, i).value.1..k], f)
    ensures Writes(data[i..k], f)
  {
    hide Varint, WritesPayload, IsVarint, Number;
    var (tag, j) := Varint(data, i).value;
    VarintIff(data, i, tag, j);
    assert data[i..k][..j - i] == data[i..j] && data[i..k][j - i..] == data[j..k];
    assert IsTag(data[i..k][..j - i], f.num, WireType(f));
  }

  lemma OneThenAll(data: Slice, i: nat, k: nat, e: nat, f: Field, fs: seq<Field>)
    requires i <= k <= e <= |data| && Writes(data[i..k], f) && WritesAll(data[k..e], fs)
    ensures WritesAll(data[i..e], [f] + fs)
  {
    hide Writes;
    assert data[i..e][..k - i] == data[i..k] && data[i..e][k - i..] == data[k..e];
    assert ([f] + fs)[1..] == fs;
  }

  lemma BytesWritten(data: Slice, j: nat, num: nat)
    requires Varint(data, j).Ok? && Varint(data, j).value.1 + Varint(data, j).value.0 <= |data|
    ensures var (length, b) := Varint(data, j).value;
            WritesPayload(data[j..b + length], BytesField(num, data[b..b + length]))
  {
    hide Varint, IsVarint, Number;
    var (length, b) := Varint(data, j).value;
    VarintIff(data, j, length, b);
    var p := data[j..b + length];
    assert p[..b - j] == data[j..b] && p[b - j..] == data[b..b + length];
  }

  lemma GroupWritten(data: Slice, j: nat, e: nat, k: nat, num: nat, fs: seq<Field>)
    requires j <= e <= k <= |data| && WritesAll(data[j..e], fs) && EndsGroup(data[e..k])
    ensures WritesPayload(data[j..k], GroupField(num, fs))
  {
    hide WritesAll, EndsGroup;
    assert data[j..k][..e - j] == data[j..e] && data[j..k][e - j..] == data[e..k];
  }

  /** What the skipping loop takes in one go is one field. */
  lemma {:induction false} SkippedIsField(data: Slice, i: nat, depth: nat) returns (f: Field, k: nat)
    requires SkipFrom(data, i, depth).Ok? && SkipFrom(data, i, depth).value <= |data|
    requires Varint(data, i).Ok? && Varint(data, i).value.0 % 8 != 4
    ensures i < k <= |data| && Writes(data[i..k], f)
    ensures f.num == Varint(data, i).value.0 / 8 % 0x1_0000_0000
    ensures SkipFrom(data, i, depth) == SkipNext(data, k, depth)
    decreases |data| - i, 0
  {
    hide Varint, Writes, WritesAll, EndsGroup, Number, IsVarint;
    var (tag, j) := Varint(data, i).value;
    var num := tag / 8 % 0x1_0000_0000;
    if tag % 8 == 3 {
      GroupTags(data, j, depth);
      var fs, e;
      fs, e, k := SkippedIsGroup(data, j, depth + 1);
      f := GroupField(num, fs);
      GroupWritten(data, j, e, k, num, fs);
    } else {
      k := SkipPayload(data, j, tag % 8, depth).value.0;
      assert SkipFrom(data, i, depth) == SkipNext(data, k, depth);
      assert k <= |data|;
      match tag % 8
      case 0 =>
        VarintIff(data, j, Varint(data, j).value.0, k);
        f := VarintField(num, Varint(data, j).value.0);
      case 1 => f := Fixed64Field(num, data[j..k]);
      case 2 =>
        BytesWritten(data, j, num);
        f := BytesField(num, data[Varint(data, j).value.1..k]);
      case 5 => f := Fixed32Field(num, data[j..k]);
    }
    TagThenPayload(data, i, k, f);
  }

  /** And what it takes with a group open is fields up to an end tag. */
  lemma {:induction false} SkippedIsGroup(data: Slice, i: nat, depth: nat) returns (fs: seq<Field>, e: nat, k: nat)
    requires 0 < depth && SkipFrom(data, i, depth).Ok? && SkipFrom(data, i, depth).value <= |data|
    ensures i <= e < k <= |data| && WritesAll(data[i..e], fs) && EndsGroup(data[e..k])
    ensures SkipFrom(data, i, depth) == SkipNext(data, k, depth - 1)
    decreases |data| - i, 1
  {
    hide Varint, Writes, Number, IsVarint;
    var (tag, j) := Varint(data, i).value;
    if tag % 8 == 4 {
      fs, e, k := [], i, j;
      VarintIff(data, i, tag, j);
      GroupTags(data, j, depth - 1);
    } else {
      var f, k1 := SkippedIsField(data, i, depth);
      fs, e, k := SkippedIsGroup(data, k1, depth);
      OneThenAll(data, i, k1, e, f, fs);
      fs := [f] + fs;
    }
  }

  lemma PositiveNumber(x: nat)
    requires 0 < Int32(x)
    ensures Int32(x) == x % 0x1_0000_0000 < 0x8000_0000
  {
  }

  lemma {:induction false} FieldIsWritten<M>(sch: Schema<M>, data: Slice, i: nat, m: M) returns (f: Field)
    requires i < |data| && ParseField(sch, data, i, m).Ok?
    ensures var (m', k) := ParseField(sch, data, i, m).value;
            Writes(data[i..k], f) && Named(f) && Apply(sch, m, f) == Ok(m')
  {
    hide Varint, Writes, Number, IsVarint, SkipFrom, Int32;
    var (wire, j) := Varint(data, i).value;
    var k := ParseField(sch, data, i, m).value.1;
    PositiveNumber(wire / 8);
    var num: nat := Int32(wire / 8);
    match sch.kind(num)
    case VarintKind =>
      VarintIff(data, j, Varint(data, j).value.0, k);
      f := VarintField(num, Varint(data, j).value.0);
      TagThenPayload(data, i, k, f);
    case BytesKind =>
      BytesWritten(data, j, num);
      f := BytesField(num, ReadBytes(data, j).value.0);
      TagThenPayload(data, i, k, f);
    case UnknownKind =>
      var rest := data[i..];
      SameFromHere(data, i);
      var n;
      f, n := SkippedIsField(rest, 0, 0);
      assert rest[0..n] == data[i..i + n];
  }

  /** A varint is read from the rest of the data as from the data. */
  lemma SameFromHere(data: Slice, i: nat)
    requires i <= |data| && Varint(data, i).Ok?
    ensures Varint(data[i..], 0) == Ok((Varint(data, i).value.0, Varint(data, i).value.1 - i))
  {
    hide Varint, IsVarint, Number;
    var (v, k) := Varint(data, i).value;
    VarintIff(data, i, v, k);
    assert data[i..][0..k - i] == data[i..k];
    VarintIff(data[i..], 0, v, k - i);
  }

  lemma {:induction false} ParseIsWritten<M>(sch: Schema<M>, data: Slice, i: nat, m: M) returns (fs: seq<Field>)
    requires i <= |data| && Parse(sch, data, i, m).Ok?
    ensures WritesAll(data[i..], fs) && AllNamed(fs) && ApplyAll(sch, m, fs) == Parse(sch, data, i, m)
    decreases |data| - i
  {
    hide ParseField, Writes, Apply;
    if i == |data| {
      fs := [];
    } else {
      var f := FieldIsWritten(sch, data, i, m);
      var (m', k) := ParseField(sch, data, i, m).value;
      var rest := ParseIsWritten(sch, data, k, m');
      assert data[k..] == data[k..|data|] && data[i..] == data[i..|data|];
      OneThenAll(data, i, k, |data|, f, rest);
      fs := [f] + rest;
      ApplyFirst(sch, m, f, rest);
    }
  }

  // ---------------------------------------------------------------- everything written so is accepted

  lemma AtParts(data: Bytes, i: nat, s: Bytes, n: nat)
    requires At(data, i, s) && n <= |s|
    ensures At(data, i, s[..n]) && At(data, i + n, s[n..])
  {
    assert s == s[..n] + s[n..];
    AtConcat(data, i, s[..n], s[n..]);
  }

  /** The tag of a written field is read, and its payload stands behind it. */
  lemma WrittenTag(data: Slice, i: nat, s: Bytes, f: Field) returns (j: nat, tag: uint64, p: Bytes)
    requires At(data, i, s) && Writes(s, f)
    ensures Varint(data, i) == Ok((tag, j)) && tag % 8 == WireType(f) && tag / 8 % 0x1_0000_0000 == f.num
    ensures At(data, j, p) && WritesPayload(p, f) && i < j && j + |p| == i + |s|
  {
    hide Varint, WritesPayload, Number, At;
    var n :| 0 <= n <= |s| && IsTag(s[..n], f.num, WireType(f)) && WritesPayload(s[n..], f);
    AtParts(data, i, s, n);
    VarintReads(data, i, s[..n]);
    j, tag, p := i + n, Number(s[..n]), s[n..];
  }

  lemma WrittenBytes(data: Slice, j: nat, p: Bytes, num: nat, bs: Slice)
    requires At(data, j, p) && WritesPayload(p, BytesField(num, bs))
    ensures Varint(data, j).Ok? && Varint(data, j).value.0 == |bs| && Varint(data, j).value.1 + |bs| == j + |p|
    ensures At(data, Varint(data, j).value.1, bs)
  {
    hide Varint, Number, IsVarint, At;
    var n :| 0 <= n <= |p| && IsVarint(p[..n]) && Number(p[..n]) == |bs| && p[n..] == bs;
    AtParts(data, j, p, n);
    VarintReads(data, j, p[..n]);
  }

  lemma WrittenBytesRead(data: Slice, j: nat, p: Bytes, num: nat, bs: Slice)
    requires At(data, j, p) && WritesPayload(p, BytesField(num, bs))
    ensures ReadBytes(data, j) == Ok((bs, j + |p|))
  {
    hide Varint, WritesPayload, At;
    WrittenBytes(data, j, p, num, bs);
    var b := Varint(data, j).value.1;
    AtIs(data, b, bs);
    var r := ReadBytes(data, j);
    assert r.value.1 == j + |p| && r.value.0 == data[b..b + |bs|];
  }

  lemma AtIs(data: Slice, b: nat, bs: Slice)
    requires At(data, b, bs)
    ensures b + |bs| <= |data| && data[b..b + |bs|] == bs
  {
  }

  lemma WrittenVarint(data: Slice, j: nat, p: Bytes, num: nat, v: uint64)
    requires At(data, j, p) && WritesPayload(p, VarintField(num, v))
    ensures Varint(data, j) == Ok((v, j + |p|))
  {
    hide Varint;
    VarintReads(data, j, p);
  }

  lemma AtRest(data: Slice, i: nat, s: Bytes)
    requires At(data, i, s)
    ensures i <= |data| && i + |s| <= |data| && At(data[i..], 0, s)
  {
  }

  lemma WrittenGroup(data: Slice, j: nat, p: Bytes, num: nat, fields: seq<Field>) returns (body: Bytes, t: Bytes)
    requires At(data, j, p) && WritesPayload(p, GroupField(num, fields))
    ensures At(data, j, body) && WritesAll(body, fields) && At(data, j + |body|, t) && EndsGroup(t) && |body| + |t| == |p|
  {
    hide WritesAll, EndsGroup, At;
    var n :| 0 <= n <= |p| && WritesAll(p[..n], fields) && EndsGroup(p[n..]);
    AtParts(data, j, p, n);
    body, t := p[..n], p[n..];
  }

  lemma WrittenPayload(data: Slice, j: nat, depth: nat, f: Field, p: Bytes)
    requires At(data, j, p) && WritesPayload(p, f) && !f.GroupField?
    ensures SkipPayload(data, j, WireType(f), depth) == Ok((j + |p|, depth))
  {
    hide Varint, Number, IsVarint;
    match f
    case VarintField(num, v) => WrittenVarint(data, j, p, num, v);
    case BytesField(num, bs) => WrittenBytes(data, j, p, num, bs);
    case _ =>
  }

  lemma {:induction false} WrittenIsSkipped(data: Slice, i: nat, depth: nat, f: Field, s: Bytes)
    requires At(data, i, s) && Writes(s, f)
    ensures SkipFrom(data, i, depth) == SkipNext(data, i + |s|, depth)
    decreases f
  {
    hide Varint, Writes, WritesAll, WritesPayload, EndsGroup, SkipPayload;
    var j, tag, p := WrittenTag(data, i, s, f);
    if !f.GroupField? {
      WrittenPayload(data, j, depth, f, p);
    } else {
      var body, t := WrittenGroup(data, j, p, f.num, f.fields);
      GroupTags(data, j, depth);
      assert SkipFrom(data, i, depth) == SkipFrom(data, j, depth + 1);
      AllWrittenSkipped(data, j, depth + 1, f.fields, body);
      EndSkipped(data, j + |body|, depth, t);
    }
  }

  lemma EndSkipped(data: Slice, i: nat, depth: nat, t: Bytes)
    requires At(data, i, t) && EndsGroup(t)
    ensures SkipFrom(data, i, depth + 1) == SkipNext(data, i + |t|, depth)
  {
    hide Varint, SkipPayload, Number;
    VarintReads(data, i, t);
    GroupTags(data, i + |t|, depth);
  }

  lemma {:induction false} AllWrittenSkipped(data: Slice, i: nat, depth: nat, fs: seq<Field>, s: Bytes)
    requires 0 < depth && At(data, i, s) && WritesAll(s, fs)
    ensures SkipFrom(data, i, depth) == SkipFrom(data, i + |s|, depth)
    decreases fs
  {
    hide SkipFrom, Writes, At;
    if fs != [] {
      var n :| 0 <= n <= |s| && Writes(s[..n], fs[0]) && WritesAll(s[n..], fs[1..]);
      AtParts(data, i, s, n);
      WrittenIsSkipped(data, i, depth, fs[0], s[..n]);
      AllWrittenSkipped(data, i + n, depth, fs[1..], s[n..]);
    }
  }

  lemma NumberIsPositive(x: nat, num: nat)
    requires x % 0x1_0000_0000 == num && 1 <= num < 0x8000_0000
    ensures Int32(x) == num
  {
  }

  /** A written field is parsed as what it means to the message. */
  lemma WrittenIsParsed<M>(sch: Schema<M>, data: Slice, i: nat, m: M, f: Field, s: Bytes)
    requires At(data, i, s) && Writes(s, f) && Named(f)
    ensures i < |data|
    ensures ParseField(sch, data, i, m) ==
              match Apply(sch, m, f)
              case Err(e) => Err(e)
              case Ok(m') => Ok((m', i + |s|))
  {
    hide Varint, Writes, WritesPayload, SkipFrom, Int32, ReadBytes, At;
    var j, tag, p := WrittenTag(data, i, s, f);
    NumberIsPositive(tag / 8, f.num);
    match sch.kind(f.num)
    case VarintKind =>
      if f.VarintField? {
        WrittenVarint(data, j, p, f.num, f.v);
      }
    case BytesKind =>
      if f.BytesField? {
        WrittenBytesRead(data, j, p, f.num, f.bs);
      }
    case UnknownKind =>
      AtRest(data, i, s);
      WrittenIsSkipped(data[i..], 0, 0, f, s);
  }

  lemma {:induction false} WrittenAllParsed<M>(sch: Schema<M>, data: Slice, i: nat, m: M, fs: seq<Field>, s: Bytes)
    requires At(data, i, s) && i + |s| == |data| && WritesAll(s, fs) && AllNamed(fs)
    ensures Parse(sch, data, i, m) == ApplyAll(sch, m, fs)
    decreases fs
  {
    hide ParseField, Writes, Apply, Named, At;
    if fs != [] {
      var n :| 0 <= n <= |s| && Writes(s[..n], fs[0]) && WritesAll(s[n..], fs[1..]);
      AtParts(data, i, s, n);
      WrittenIsParsed(sch, data, i, m, fs[0], s[..n]);
      var r := Apply(sch, m, fs[0]);
      if r.Ok? {
        WrittenAllParsed(sch, data, i + n, r.value, fs[1..], s[n..]);
      }
    }
  }

  /**
    The parser accepts exactly the data that is a writing of fields with positive numbers, whatever varints and groups
    are used for it, and gives exactly what those fields, applied one after another, make of the message.
   */
  lemma ParseAcceptsIff<M(!new)>(sch: Schema<M>, data: Slice, m: M, r: M)
    ensures Parse(sch, data, 0, m) == Ok(r) <==>
            exists fs :: WritesAll(data, fs) && AllNamed(fs) && ApplyAll(sch, m, fs) == Ok(r)
  {
    hide Parse, WritesAll, AllNamed, ApplyAll;
    if Parse(sch, data, 0, m) == Ok(r) {
      var fs := ParseIsWritten(sch, data, 0, m);
      assert data[0..] == data;
    }
    forall fs | WritesAll(data, fs) && AllNamed(fs)
      ensures Parse(sch, data, 0, m) == ApplyAll(sch, m, fs)
    {
      WholeIsAt(data);
      WrittenAllParsed(sch, data, 0, m, fs, data);
    }
  }
}
