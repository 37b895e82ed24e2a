/** Iterating over a range of a collection. */
module Ranges {
  import opened Wrappers
  import opened ByteStrings
  import opened KeyCodecs
  import opened Schemas
  import opened Maps
  import opened StandardKeys

  // ---------------------------------------------------------------- the store's iterators

  predicate Ascending(ks: seq<Bytes>) {
    forall i, j :: 0 <= i < j < |ks| ==> Less(ks[i], ks[j])
  }

  predicate Least(m: Bytes, s: set<Bytes>) {
    m in s && forall k :: k in s && k != m ==> Less(m, k)
  }

  lemma {:induction false} LeastExists(s: set<Bytes>)
    requires s != {}
    ensures exists m :: m in s && Least(m, s)
    ensures forall m, n :: Least(m, s) && Least(n, s) ==> m == n
    decreases s
  {
    forall m, n | Least(m, s) && Least(n, s)
      ensures m == n
    {
      LessIsTotal(m, n);
    }
    var x :| x in s;
    if s == {x} {
      assert Least(x, s);
    } else {
      var rest := s - {x};
      LeastExists(rest);
      var n :| Least(n, rest);
      LessIsTotal(x, n);
      if Less(x, n) {
        forall k | k in s && k != x
          ensures Less(x, k)
        {
          if k != n {
            LessIsTransitive(x, n, k);
          }
        }
        assert Least(x, s);
      } else {
        assert Least(n, s);
      }
    }
  }

  /** The keys of a set, least first. */
  function Sorted(s: set<Bytes>): (ks: seq<Bytes>)
    ensures Ascending(ks) && forall k :: k in ks <==> k in s
    decreases s
  {
    if s == {} then []
    else
      LeastExists(s);
      var m :| m in s && Least(m, s);
      [m] + Sorted(s - {m})
  }

  predicate From(k: Bytes, start: Option<Bytes>) {
    start.None? || !Less(k, start.value)
  }

  /** What the store's iterator goes through; no start means from the first key, no end means to the last. */
  function StoreKeys(data: Data, start: Option<Bytes>, end: Option<Bytes>): seq<Bytes> {
    Sorted(set k | k in data && From(k, start) && Below(k, end))
  }

  // ---------------------------------------------------------------- bounds

  datatype Kind = Exact | Next | PrefixEnd

  datatype RangeKey<K> = RangeKey(kind: Kind, key: K)

  datatype Order = AscendingOrder | DescendingOrder | UnknownOrder

  datatype Range<K> = Range(start: Option<RangeKey<K>>, end: Option<RangeKey<K>>, order: Order)

  /** The bytes of a bound; `Ok(None)` when nothing can follow. */
  function EncodeRangeBound<K>(prefix: Bytes, kc: KeyCodec<K>, bound: RangeKey<K>): Result<Option<Bytes>, Error> {
    var key := EncodeKeyWithPrefix(prefix, kc, bound.key);
    if key.None? then Err(Encoding)
    else match bound.kind
      case Exact => Ok(key)
      case Next => Ok(Some(key.value + [0]))
      case PrefixEnd => Ok(NextPrefix(key.value))
  }

  /** What the store is asked for. */
  function IterationBounds<K, V>(m: Map<K, V>, r: Range<K>): Result<(Option<Bytes>, Option<Bytes>), Error> {
    var start := if r.start.None? then Ok(Some(m.prefix)) else EncodeRangeBound(m.prefix, m.kc, r.start.value);
    var end := if r.end.None? then Ok(NextPrefix(m.prefix)) else EncodeRangeBound(m.prefix, m.kc, r.end.value);
    if start.Err? then Err(start.error) else if end.Err? then Err(end.error) else Ok((start.value, end.value))
  }

  /** The keys an iteration goes through. */
  function Iterate<K, V>(m: Map<K, V>, data: Data, r: Range<K>): Result<seq<Bytes>, Error> {
    var bounds := IterationBounds(m, r);
    if bounds.Err? then Err(bounds.error)
    else if r.order.UnknownOrder? then Err(InvalidOrder)
    else
      var ks := StoreKeys(data, bounds.value.0, bounds.value.1);
      if ks == [] then Err(InvalidIterator) else Ok(if r.order.AscendingOrder? then ks else Reversed(ks))
  }

  function Reversed<T>(s: seq<T>): seq<T> {
    seq(|s|, i requires 0 <= i < |s| => s[|s| - 1 - i])
  }

  // ---------------------------------------------------------------- what the bounds mean

  /** `k` lies on the right side of a start at `e`. */
  predicate After(kind: Kind, e: Bytes, k: Bytes) {
    match kind
    case Exact => !Less(k, e)
    case Next => Less(e, k)
    case PrefixEnd => Less(e, k) && !(e <= k)
  }

  /** `k` lies on the right side of an end at `e`. */
  predicate Before(kind: Kind, e: Bytes, k: Bytes) {
    match kind
    case Exact => Less(k, e)
    case Next => !Less(e, k)
    case PrefixEnd => Less(k, e) || e <= k
  }

  /** `k` is a key of the collection within the range, said in terms of the keys that bound it. */
  predicate InRange<K, V>(m: Map<K, V>, r: Range<K>, k: Bytes) {
    && m.prefix <= k
    && (r.start.Some? ==> After(r.start.value.kind, m.prefix + Enc(m.kc.terminal, r.start.value.key), k))
    && (r.end.Some? ==> Before(r.end.value.kind, m.prefix + Enc(m.kc.terminal, r.end.value.key), k))
  }

  /** The bytes of a start bound say what the bound means, unless they are missing. */
  lemma StartMeans<K>(p: Bytes, kc: KeyCodec<K>, b: RangeKey<K>, k: Bytes)
    requires EncodeRangeBound(p, kc, b).Ok? && EncodeRangeBound(p, kc, b).value.Some?
    ensures From(k, EncodeRangeBound(p, kc, b).value) <==> After(b.kind, p + Enc(kc.terminal, b.key), k)
  {
    KeyBytes(p, kc, b.key);
    var e := p + Enc(kc.terminal, b.key);
    NextKeyIsNext(e, k);
    PrefixIsRange(e, k);
    LessIsTotal(e, k);
    if b.kind.PrefixEnd? && Less(k, e) {
      PrefixIsRange(e, e);
      LessIsTotal(e, e);
      LessIsTransitive(k, e, NextPrefix(e).value);
    }
  }

  lemma EndMeans<K>(p: Bytes, kc: KeyCodec<K>, b: RangeKey<K>, k: Bytes)
    requires EncodeRangeBound(p, kc, b).Ok?
    ensures Below(k, EncodeRangeBound(p, kc, b).value) <==> Before(b.kind, p + Enc(kc.terminal, b.key), k)
  {
    KeyBytes(p, kc, b.key);
    var e := p + Enc(kc.terminal, b.key);
    NextKeyIsNext(e, k);
    PrefixIsRange(e, k);
    LessIsTotal(e, k);
    if b.kind.PrefixEnd? && Less(k, e) && NextPrefix(e).Some? {
      PrefixIsRange(e, e);
      LessIsTotal(e, e);
      LessIsTransitive(k, e, NextPrefix(e).value);
    }
  }

  /** A key that is not below a bound of the collection is not below the collection. */
  lemma AfterStartsInside(p: Bytes, kind: Kind, x: Bytes, k: Bytes)
    requires After(kind, p + x, k)
    ensures !Less(k, p)
  {
    PrefixIsRange(p, p + x);
    LessIsTotal(p, k);
    LessIsTotal(p, p + x);
    LessIsTotal(p + x, k);
    if Less(k, p) && p != p + x {
      LessIsTransitive(k, p, p + x);
    }
  }

  /** A key of at least the prefix that lies before a bound of the collection belongs to the collection. */
  lemma BeforeEndsInside(p: Bytes, kind: Kind, x: Bytes, k: Bytes)
    requires Before(kind, p + x, k) && !Less(k, p)
    ensures p <= k
  {
    PrefixIsRange(p, k);
    PrefixIsRange(p, p + x);
    LessIsTotal(p + x, k);
    if Less(k, p + x) && NextPrefix(p).Some? {
      LessIsTransitive(k, p + x, NextPrefix(p).value);
    }
  }

  // ---------------------------------------------------------------- exactness

  /** The range starts after everything under a prefix that nothing can follow. */
  predicate PastEverything<K, V>(m: Map<K, V>, r: Range<K>) {
    r.start.Some? && EncodeRangeBound(m.prefix, m.kc, r.start.value) == Ok(None)
  }

  /** What the store is asked for is the range of the collection, and nothing of any other. */
  lemma BoundsAreExact<K, V>(m: Map<K, V>, r: Range<K>, k: Bytes)
    requires IterationBounds(m, r).Ok? && !PastEverything(m, r)
    ensures From(k, IterationBounds(m, r).value.0) && Below(k, IterationBounds(m, r).value.1) <==> InRange(m, r, k)
  {
    var p := m.prefix;
    PrefixIsRange(p, k);
    if r.start.Some? {
      var b := r.start.value;
      StartMeans(p, m.kc, b, k);
      if After(b.kind, p + Enc(m.kc.terminal, b.key), k) {
        AfterStartsInside(p, b.kind, Enc(m.kc.terminal, b.key), k);
      }
    }
    if r.end.Some? {
      var b := r.end.value;
      EndMeans(p, m.kc, b, k);
      if Before(b.kind, p + Enc(m.kc.terminal, b.key), k) && !Less(k, p) {
        BeforeEndsInside(p, b.kind, Enc(m.kc.terminal, b.key), k);
      }
    }
  }

  ghost predicate InOrder(ks: seq<Bytes>, order: Order) {
    if order.DescendingOrder? then Ascending(Reversed(ks)) else Ascending(ks)
  }

  /**
    * An iteration goes through the collection's keys in the range, all of them, in order and once each; it reports an
    * invalid iterator just when there are none.
    */
  lemma IterateIsExact<K, V>(m: Map<K, V>, data: Data, r: Range<K>)
    requires IterationBounds(m, r).Ok? && !r.order.UnknownOrder? && !PastEverything(m, r)
    ensures match Iterate(m, data, r)
            case Ok(ks) => InOrder(ks, r.order) && ks != []
                           && forall k :: k in ks <==> k in Own(m.prefix, data) && InRange(m, r, k)
            case Err(e) => e == InvalidIterator && forall k :: k in Own(m.prefix, data) ==> !InRange(m, r, k)
  {
    var bounds := IterationBounds(m, r).value;
    var ks := StoreKeys(data, bounds.0, bounds.1);
    forall k
      ensures k in ks <==> k in Own(m.prefix, data) && InRange(m, r, k)
    {
      BoundsAreExact(m, r, k);
    }
    assert Reversed(Reversed(ks)) == ks;
    forall k
      ensures k in Reversed(ks) <==> k in ks
    {
      if k in ks {
        var i :| 0 <= i < |ks| && ks[i] == k;
        assert Reversed(ks)[|ks| - 1 - i] == k;
      }
    }
    assert ks != [] ==> ks[0] in ks;
  }

  /** An iteration depends on its own part of the store only. */
  lemma IterateIsOwn<K, V>(m: Map<K, V>, data: Data, r: Range<K>)
    requires !PastEverything(m, r)
    ensures Iterate(m, data, r) == Iterate(m, Own(m.prefix, data), r)
  {
    if IterationBounds(m, r).Ok? {
      var bounds := IterationBounds(m, r).value;
      forall k | k in data && From(k, bounds.0) && Below(k, bounds.1)
        ensures m.prefix <= k
      {
        BoundsAreExact(m, r, k);
      }
      assert (set k | k in data && From(k, bounds.0) && Below(k, bounds.1))
          == (set k | k in Own(m.prefix, data) && From(k, bounds.0) && Below(k, bounds.1));
    }
  }

  /**
    * The excluded case. Nothing is in such a range, yet the missing start reads as the beginning of the store: the
    * iteration is right exactly when the store has no key below the end, in any collection.
    */
  lemma PastEverythingStartsOver<K, V>(m: Map<K, V>, data: Data, r: Range<K>)
    requires IterationBounds(m, r).Ok? && !r.order.UnknownOrder? && PastEverything(m, r)
    ensures forall k :: !InRange(m, r, k)
    ensures Iterate(m, data, r) == Err(InvalidIterator) <==> forall k :: k in data ==> !Below(k, IterationBounds(m, r).value.1)
  {
    var b := r.start.value;
    var e := m.prefix + Enc(m.kc.terminal, b.key);
    KeyBytes(m.prefix, m.kc, b.key);
    forall k
      ensures !After(b.kind, e, k)
    {
      PrefixIsRange(e, k);
      LessIsTotal(e, k);
    }
    var bounds := IterationBounds(m, r).value;
    var s := set k | k in data && From(k, bounds.0) && Below(k, bounds.1);
    if k :| k in data && Below(k, bounds.1) {
      assert k in s && k in Sorted(s);
    } else {
      assert s == {};
    }
  }

  /** Byte strings under the prefix 0xFF, asked for from after everything with an empty prefix. */
  function AfterAll(): (Map<Bytes, ()>, Range<Bytes>) {
    (Map([255], BytesKey, ValueCodec((v: ()) => Some([]), (b: Bytes) => Some(()))),
     Range(Some(RangeKey(PrefixEnd, [])), None, AscendingOrder))
  }

  /** Such a range is empty, and its iteration hands out a key of another collection. */
  lemma ForeignKeyFound()
    ensures var (m, r) := AfterAll();
            var data: Data := map[[1] := [7]];
            && PastEverything(m, r) && Own(m.prefix, data) == map[]
            && Iterate(m, data, r) == Ok([[1]]) && !InRange(m, r, [1])
  {
    var (m, r) := AfterAll();
    var data: Data := map[[1] := [7]];
    var p: Bytes, k: Bytes := [255], [1];
    RawIsWhole([]);
    KeyBytes(p, m.kc, []);
    assert p + [] == p && p[..0] == [] && NextPrefix([]) == None && NextPrefix(p) == None;
    assert IterationBounds(m, r) == Ok((None, None));
    var s := set x | x in data && From(x, None) && Below(x, None);
    assert s == {k};
    SortedOne(k);
    PastEverythingStartsOver(m, data, r);
    assert !(p <= k);
  }

  lemma SortedOne(k: Bytes)
    ensures Sorted({k}) == [k]
  {
    var ks := Sorted({k});
    assert k in ks;
    if |ks| > 1 {
      assert ks[0] in ks && ks[1] in ks;
      LessIsTotal(ks[0], ks[1]);
    }
  }

  // ---------------------------------------------------------------- typed keys

  /** The key an iterator hands out: the prefix is cut off, and the codec must use up the rest. */
  function IteratorKey<K, V>(m: Map<K, V>, raw: Bytes): Result<K, Error> {
    if |raw| < |m.prefix| then Err(OutOfBounds)
    else
      var bytes := raw[|m.prefix|..];
      var r := m.kc.terminal.decode(bytes);
      if r.None? || r.value.0 != |bytes| then Err(Encoding) else Ok(r.value.1)
  }

  lemma KeyComesBack<K, V>(m: Map<K, V>, k: K)
    requires Whole(m.kc, k)
    ensures KeyOf(m, k).Some? && m.prefix <= KeyOf(m, k).value && IteratorKey(m, KeyOf(m, k).value) == Ok(k)
  {
    KeyBytes(m.prefix, m.kc, k);
    WritesItself(m.kc.terminal, k);
    assert (m.prefix + Enc(m.kc.terminal, k))[|m.prefix|..] == Enc(m.kc.terminal, k);
  }

  /** Reads out all keys of an iteration, stopping at the first that does not decode. */
  method Keys<K, V>(m: Map<K, V>, raw: seq<Bytes>) returns (r: Result<seq<K>, Error>)
    ensures r.Ok? <==> forall i :: 0 <= i < |raw| ==> IteratorKey(m, raw[i]).Ok?
    ensures r.Ok? ==> |r.value| == |raw| && forall i :: 0 <= i < |raw| ==> IteratorKey(m, raw[i]).value == r.value[i]
  {
    var keys: seq<K> := [];
    while |keys| < |raw|
      invariant |keys| <= |raw|
      invariant forall i :: 0 <= i < |keys| ==> IteratorKey(m, raw[i]).Ok? && IteratorKey(m, raw[i]).value == keys[i]
    {
      var key := IteratorKey(m, raw[|keys|]);
      if key.Err? {
        return Err(key.error);
      }
      keys := keys + [key.value];
    }
    return Ok(keys);
  }

  // ---------------------------------------------------------------- pairs

  function NewPrefixedPairRange<K1, K2>(k1: K1): Range<Pair<K1, K2>> {
    Range(Some(RangeKey(Exact, PairPrefix(k1))), Some(RangeKey(PrefixEnd, PairPrefix(k1))), AscendingOrder)
  }

  lemma PrefixCancels(p: Bytes, a: Bytes, b: Bytes)
    ensures p + a <= p + b <==> a <= b
  {
    assert (p + a)[|p|..] == a && (p + b)[|p|..] == b;
    if p + a <= p + b {
      assert b[..|a|] == (p + b)[..|p| + |a|][|p|..];
    }
  }

  /** The range of a first part holds exactly the stored pairs with that first part. */
  lemma PrefixedPairRangeIsExact<K1, K2, V>(m: Map<Pair<K1, K2>, V>, kc1: KeyCodec<K1>, kc2: KeyCodec<K2>, k1: K1, a: K1, b: K2)
    requires m.kc == PairKeyCodec(kc1, kc2) && Partial(kc1, k1) && Partial(kc1, a) && Whole(kc2, b)
    ensures var r := NewPrefixedPairRange<K1, K2>(k1);
            && IterationBounds(m, r).Ok? && !PastEverything(m, r) && KeyOf(m, Join(a, b)).Some?
            && (InRange(m, r, KeyOf(m, Join(a, b)).value) <==> a == k1)
  {
    hide Writes, Reads, Delimits, Enc, NextPrefix;
    var p, f := m.prefix, m.kc.terminal;
    PairPrefixWrites(kc1.nonTerminal, kc2.terminal, k1);
    KeyBytes(p, m.kc, PairPrefix(k1));
    PairIsWhole(kc1, kc2, a, b);
    KeyBytes(p, m.kc, Join(a, b));
    PairPrefixMatches(kc1, kc2, k1, a, b);
    var e, k := p + Enc(f, PairPrefix(k1)), p + Enc(f, Join(a, b));
    PrefixCancels(p, Enc(f, PairPrefix(k1)), Enc(f, Join(a, b)));
    PrefixIsRange(e, k);
    LessIsTotal(e, k);
  }

  /** Iterating over the range of a first part finds a pair just when it is stored and has that first part. */
  lemma PrefixedPairsFound<K1, K2, V>(
    m: Map<Pair<K1, K2>, V>, data: Data, kc1: KeyCodec<K1>, kc2: KeyCodec<K2>, k1: K1, a: K1, b: K2)
    requires m.kc == PairKeyCodec(kc1, kc2) && Partial(kc1, k1) && Partial(kc1, a) && Whole(kc2, b)
    ensures KeyOf(m, Join(a, b)).Some?
    ensures var found := Iterate(m, data, NewPrefixedPairRange<K1, K2>(k1));
            (found.Ok? && KeyOf(m, Join(a, b)).value in found.value) <==> KeyOf(m, Join(a, b)).value in data && a == k1
  {
    hide InRange, Iterate;
    PrefixedPairRangeIsExact(m, kc1, kc2, k1, a, b);
    IterateIsExact(m, data, NewPrefixedPairRange<K1, K2>(k1));
    KeyBytes(m.prefix, m.kc, Join(a, b));
  }
}
