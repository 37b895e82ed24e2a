/** Key codecs, the laws a map needs of them, and the codec of pairs. */
module KeyCodecs {
  import opened Wrappers
  import opened ByteStrings

  /**
    * One way of writing a key. Encoding fills the front of a buffer and reports how much it wrote; decoding reports
    * how much it read. `None` stands for an error, and for running off the buffer.
    */
  datatype Form<!K> = Form(
    encode: (Bytes, K) -> Option<(nat, Bytes)>,
    decode: Bytes -> Option<(nat, K)>,
    size: K -> nat)

  /** The form for the last part of a key, which may run to the end, and the form for the parts before it. */
  datatype KeyCodec<!K> = KeyCodec(terminal: Form<K>, nonTerminal: Form<K>)

  // ---------------------------------------------------------------- laws

  function Zeros(n: nat): Bytes {
    seq(n, _ => 0)
  }

  /** What a fresh buffer of the advertised size holds after encoding. */
  function Enc<K>(f: Form<K>, k: K): Bytes {
    var r := f.encode(Zeros(f.size(k)), k);
    if r.Some? then r.value.1 else []
  }

  /** Encoding into any fresh buffer that is large enough fills exactly the advertised size. */
  ghost predicate Writes<K>(f: Form<K>, k: K) {
    forall n: nat :: f.size(k) <= n ==> WritesInto(f, k, n)
  }

  predicate WritesInto<K(==)>(f: Form<K>, k: K, n: nat)
    requires f.size(k) <= n
  {
    |Enc(f, k)| == f.size(k) && f.encode(Zeros(n), k) == Some((f.size(k), Enc(f, k) + Zeros(n - f.size(k))))
  }

  predicate Reads<K(==)>(f: Form<K>, k: K) {
    f.decode(Enc(f, k)) == Some((f.size(k), k))
  }

  /** Decoding stops where the key stops, whatever follows. */
  ghost predicate Delimits<K>(f: Form<K>, k: K) {
    forall rest: Bytes :: f.decode(Enc(f, k) + rest) == Some((f.size(k), k))
  }

  /** The key can stand alone, or be the last part of a key. */
  ghost predicate Whole<K>(kc: KeyCodec<K>, k: K) {
    Writes(kc.terminal, k) && Reads(kc.terminal, k)
  }

  /** The key can be followed by others. */
  ghost predicate Partial<K>(kc: KeyCodec<K>, k: K) {
    Writes(kc.nonTerminal, k) && Delimits(kc.nonTerminal, k)
  }

  lemma WritesItself<K>(f: Form<K>, k: K)
    requires Writes(f, k)
    ensures |Enc(f, k)| == f.size(k) && f.encode(Zeros(f.size(k)), k) == Some((f.size(k), Enc(f, k)))
  {
    assert WritesInto(f, k, f.size(k));
    assert Enc(f, k) + Zeros(0) == Enc(f, k);
  }

  /** Different keys have different bytes. */
  lemma EncIsInjective<K>(f: Form<K>, j: K, k: K)
    requires Reads(f, j) && Reads(f, k) && Enc(f, j) == Enc(f, k)
    ensures j == k
  {
  }

  lemma DelimitedReads<K>(f: Form<K>, k: K)
    requires Delimits(f, k)
    ensures Reads(f, k)
  {
    assert Enc(f, k) + [] == Enc(f, k);
  }

  /** A delimited key is nobody else's prefix. */
  lemma DelimitedPrefix<K>(f: Form<K>, j: K, k: K, rest: Bytes)
    requires Delimits(f, j) && Delimits(f, k)
    ensures Enc(f, j) <= Enc(f, k) + rest <==> j == k
  {
    if Enc(f, j) <= Enc(f, k) + rest {
      var tail := (Enc(f, k) + rest)[|Enc(f, j)|..];
      assert Enc(f, j) + tail == Enc(f, k) + rest;
    }
  }

  // ---------------------------------------------------------------- pairs

  /** Either part may be absent when a pair is used as a bound. */
  datatype Pair<K1, K2> = Pair(key1: Option<K1>, key2: Option<K2>)

  function Join<K1, K2>(k1: K1, k2: K2): Pair<K1, K2> {
    Pair(Some(k1), Some(k2))
  }

  function PairPrefix<K1, K2>(k1: K1): Pair<K1, K2> {
    Pair(Some(k1), None)
  }

  /** Encodes an optional part into what is left of the buffer after the first `at` bytes. */
  function EncodePart<K>(f: Form<K>, buffer: Bytes, at: nat, key: Option<K>): Option<(nat, Bytes)> {
    if key.None? then Some((at, buffer))
    else if |buffer| < at then None
    else
      var r := f.encode(buffer[at..], key.value);
      if r.None? then None else Some((at + r.value.0, buffer[..at] + r.value.1))
  }

  function EncodePair<K1, K2>(f1: Form<K1>, f2: Form<K2>, buffer: Bytes, pair: Pair<K1, K2>): Option<(nat, Bytes)> {
    var r := EncodePart(f1, buffer, 0, pair.key1);
    if r.None? then None else EncodePart(f2, r.value.1, r.value.0, pair.key2)
  }

  function DecodePair<K1, K2>(f1: Form<K1>, f2: Form<K2>, buffer: Bytes): Option<(nat, Pair<K1, K2>)> {
    var r1 := f1.decode(buffer);
    if r1.None? || |buffer| < r1.value.0 then None
    else
      var r2 := f2.decode(buffer[r1.value.0..]);
      if r2.None? then None else Some((r1.value.0 + r2.value.0, Join(r1.value.1, r2.value.1)))
  }

  function SizePart<K>(f: Form<K>, key: Option<K>): nat {
    if key.None? then 0 else f.size(key.value)
  }

  function PairForm<K1, K2>(f1: Form<K1>, f2: Form<K2>): Form<Pair<K1, K2>> {
    Form(
      (buffer, pair) => EncodePair(f1, f2, buffer, pair),
      buffer => DecodePair(f1, f2, buffer),
      (pair: Pair<K1, K2>) => SizePart(f1, pair.key1) + SizePart(f2, pair.key2))
  }

  function PairKeyCodec<K1, K2>(kc1: KeyCodec<K1>, kc2: KeyCodec<K2>): KeyCodec<Pair<K1, K2>> {
    KeyCodec(PairForm(kc1.nonTerminal, kc2.terminal), PairForm(kc1.nonTerminal, kc2.nonTerminal))
  }

  lemma PairInto<K1, K2>(f1: Form<K1>, f2: Form<K2>, k1: K1, k2: K2, n: nat)
    requires Writes(f1, k1) && Writes(f2, k2) && f1.size(k1) + f2.size(k2) <= n
    ensures PairForm(f1, f2).encode(Zeros(n), Join(k1, k2))
            == Some((f1.size(k1) + f2.size(k2), Enc(f1, k1) + Enc(f2, k2) + Zeros(n - f1.size(k1) - f2.size(k2))))
  {
    var left := n - f1.size(k1);
    assert WritesInto(f1, k1, n) && WritesInto(f2, k2, left);
    assert Zeros(n)[0..] == Zeros(n) && Zeros(n)[..0] == [];
    var b1 := Enc(f1, k1) + Zeros(left);
    assert [] + b1 == b1;
    assert b1[f1.size(k1)..] == Zeros(left) && b1[..f1.size(k1)] == Enc(f1, k1);
    assert Enc(f1, k1) + (Enc(f2, k2) + Zeros(left - f2.size(k2))) == Enc(f1, k1) + Enc(f2, k2) + Zeros(left - f2.size(k2));
  }

  /** A pair is written as its parts one after the other, in the space of both. */
  lemma PairWrites<K1, K2>(f1: Form<K1>, f2: Form<K2>, k1: K1, k2: K2)
    requires Writes(f1, k1) && Writes(f2, k2)
    ensures Enc(PairForm(f1, f2), Join(k1, k2)) == Enc(f1, k1) + Enc(f2, k2)
    ensures Writes(PairForm(f1, f2), Join(k1, k2))
  {
    var f, pair := PairForm(f1, f2), Join(k1, k2);
    WritesItself(f1, k1);
    WritesItself(f2, k2);
    PairInto(f1, f2, k1, k2, f.size(pair));
    assert Enc(f1, k1) + Enc(f2, k2) + Zeros(0) == Enc(f1, k1) + Enc(f2, k2);
    forall n: nat | f.size(pair) <= n
      ensures WritesInto(f, pair, n)
    {
      PairInto(f1, f2, k1, k2, n);
    }
  }

  lemma PairDecodes<K1, K2>(f1: Form<K1>, f2: Form<K2>, k1: K1, k2: K2, rest: Bytes)
    requires Writes(f1, k1) && Writes(f2, k2) && Delimits(f1, k1)
    requires f2.decode(Enc(f2, k2) + rest) == Some((f2.size(k2), k2))
    ensures PairForm(f1, f2).decode(Enc(f1, k1) + Enc(f2, k2) + rest)
            == Some((f1.size(k1) + f2.size(k2), Join(k1, k2)))
  {
    var tail := Enc(f2, k2) + rest;
    var buffer := Enc(f1, k1) + Enc(f2, k2) + rest;
    WritesItself(f1, k1);
    assert buffer == Enc(f1, k1) + tail && buffer[f1.size(k1)..] == tail;
  }

  /** A pair can stand alone if its first part can be followed by its second, and that can stand alone. */
  lemma PairIsWhole<K1, K2>(kc1: KeyCodec<K1>, kc2: KeyCodec<K2>, k1: K1, k2: K2)
    requires Partial(kc1, k1) && Whole(kc2, k2)
    ensures Whole(PairKeyCodec(kc1, kc2), Join(k1, k2))
  {
    var f1, t2 := kc1.nonTerminal, kc2.terminal;
    PairWrites(f1, t2, k1, k2);
    assert Enc(t2, k2) + [] == Enc(t2, k2);
    PairDecodes(f1, t2, k1, k2, []);
    assert Enc(f1, k1) + Enc(t2, k2) + [] == Enc(f1, k1) + Enc(t2, k2);
  }

  /** A pair can be followed by others if both its parts can. */
  lemma PairIsPartial<K1, K2>(kc1: KeyCodec<K1>, kc2: KeyCodec<K2>, k1: K1, k2: K2)
    requires Partial(kc1, k1) && Partial(kc2, k2)
    ensures Partial(PairKeyCodec(kc1, kc2), Join(k1, k2))
  {
    var f1, f2 := kc1.nonTerminal, kc2.nonTerminal;
    PairWrites(f1, f2, k1, k2);
    forall rest: Bytes
      ensures PairForm(f1, f2).decode(Enc(PairForm(f1, f2), Join(k1, k2)) + rest)
              == Some((PairForm(f1, f2).size(Join(k1, k2)), Join(k1, k2)))
    {
      PairDecodes(f1, f2, k1, k2, rest);
    }
  }

  /** A pair with its first part alone is written as that part. */
  lemma PairPrefixWrites<K1, K2>(f1: Form<K1>, f2: Form<K2>, k1: K1)
    requires Writes(f1, k1)
    ensures Enc(PairForm(f1, f2), PairPrefix(k1)) == Enc(f1, k1)
    ensures PairForm(f1, f2).encode(Zeros(f1.size(k1)), PairPrefix(k1)) == Some((f1.size(k1), Enc(f1, k1)))
    ensures PairForm(f1, f2).size(PairPrefix(k1)) == f1.size(k1) == |Enc(f1, k1)|
  {
    WritesItself(f1, k1);
    var z := Zeros(f1.size(k1));
    assert z[0..] == z && z[..0] == [] && [] + Enc(f1, k1) == Enc(f1, k1);
  }

  /** A stored pair starts with the bytes of `PairPrefix(k1)` just when its first part is `k1`. */
  lemma PairPrefixMatches<K1, K2>(kc1: KeyCodec<K1>, kc2: KeyCodec<K2>, k1: K1, a: K1, b: K2)
    requires Partial(kc1, k1) && Partial(kc1, a) && Whole(kc2, b)
    ensures var f := PairKeyCodec(kc1, kc2).terminal;
            Enc(f, PairPrefix(k1)) <= Enc(f, Join(a, b)) <==> a == k1
  {
    PairPrefixWrites(kc1.nonTerminal, kc2.terminal, k1);
    PairWrites(kc1.nonTerminal, kc2.terminal, a, b);
    DelimitedPrefix(kc1.nonTerminal, k1, a, Enc(kc2.terminal, b));
  }
}
