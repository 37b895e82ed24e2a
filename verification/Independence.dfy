/** Typed maps of one schema, run side by side on one store. */
module Independence {
  import opened KeyCodecs
  import opened Schemas
  import opened Maps
  import opened Ranges

  /** An operation of the map at place `at`. */
  datatype TypedOp<K, V> = SetAt(at: nat, key: K, value: V) | RemoveAt(at: nat, key: K)

  /** The maps are the collections of a schema that was built. */
  predicate Belong<K, V>(cs: seq<Collection>, maps: seq<Map<K, V>>) {
    Separate(cs) && |maps| == |cs| && forall i :: 0 <= i < |cs| ==> maps[i].prefix == cs[i].prefix
  }

  predicate Addressed<K, V>(maps: seq<Map<K, V>>, ops: seq<TypedOp<K, V>>) {
    forall i :: 0 <= i < |ops| ==> ops[i].at < |maps|
  }

  /** What an operation leaves in the store; a refused one leaves it as it is. */
  function Do<K, V>(m: Map<K, V>, op: TypedOp<K, V>, data: Data): Data {
    if op.SetAt? then SetIn(m, data, op.key, op.value).0 else RemoveIn(m, data, op.key).0
  }

  /** All operations go to one store. */
  function Together<K, V>(maps: seq<Map<K, V>>, ops: seq<TypedOp<K, V>>, data: Data): Data
    requires Addressed(maps, ops)
    decreases |ops|
  {
    if ops == [] then data else Together(maps, ops[1..], Do(maps[ops[0].at], ops[0], data))
  }

  /** Map `i` has a store to itself, and only its own operations. */
  function Alone<K, V>(maps: seq<Map<K, V>>, ops: seq<TypedOp<K, V>>, i: nat, data: Data): Data
    requires Addressed(maps, ops) && i < |maps|
    decreases |ops|
  {
    if ops == [] then data
    else Alone(maps, ops[1..], i, if ops[0].at == i then Do(maps[i], ops[0], data) else data)
  }

  /** The same operations on a mathematical map. */
  ghost function Plain<K, V>(ops: seq<TypedOp<K, V>>, i: nat, p: imap<K, V>): imap<K, V>
    decreases |ops|
  {
    if ops == [] then p
    else
      var op := ops[0];
      Plain(ops[1..], i, if op.at != i then p else if op.SetAt? then p[op.key := op.value] else p - {op.key})
  }

  /** The keys can stand alone and the values come back. */
  ghost predicate Usable<K, V>(m: Map<K, V>, op: TypedOp<K, V>) {
    Whole(m.kc, op.key) && (op.SetAt? ==> Keeps(m.vc, op.value))
  }

  /** An operation does to a map's own part of the store what it does to the store. */
  lemma DoIsOwn<K, V>(m: Map<K, V>, op: TypedOp<K, V>, data: Data)
    ensures Own(m.prefix, Do(m, op, data)) == Do(m, op, Own(m.prefix, data))
    ensures OthersUnchanged(m.prefix, data, Do(m, op, data))
  {
    KeyBytes(m.prefix, m.kc, op.key);
    var place := KeyOf(m, op.key);
    if op.SetAt? {
      StaysInside(m, data, op.key, op.value);
      var bytes := m.vc.encode(op.value);
      if place.Some? && bytes.Some? {
        OwnWrite(m.prefix, m.prefix, place.value, bytes.value, data);
      }
    } else if place.Some? {
      KeepOthers(m.prefix, place.value, [], data);
      OwnWrite(m.prefix, m.prefix, place.value, [], data);
    }
  }

  lemma {:induction false} TogetherIsAlone<K, V>(
    cs: seq<Collection>, maps: seq<Map<K, V>>, ops: seq<TypedOp<K, V>>, i: nat, data: Data)
    requires Belong(cs, maps) && Addressed(maps, ops) && i < |maps|
    ensures Own(maps[i].prefix, Together(maps, ops, data)) == Alone(maps, ops, i, Own(maps[i].prefix, data))
    decreases |ops|
  {
    hide Own, Do;
    if ops != [] {
      var j := ops[0].at;
      DoIsOwn(maps[j], ops[0], data);
      assert j != i ==> Apart(maps[i].prefix, maps[j].prefix);
      TogetherIsAlone(cs, maps, ops[1..], i, Do(maps[j], ops[0], data));
    }
  }

  /**
    * Over any run, refused operations included, each map of a schema holds and iterates over what it would if it had a
    * store to itself and had seen its own operations only.
    */
  lemma MapsAreIndependent<K(!new), V>(
    cs: seq<Collection>, maps: seq<Map<K, V>>, ops: seq<TypedOp<K, V>>, i: nat, data: Data)
    requires Belong(cs, maps) && Addressed(maps, ops) && i < |maps|
    ensures var together, alone := Together(maps, ops, data), Alone(maps, ops, i, Own(maps[i].prefix, data));
            && Contents(maps[i], together) == Contents(maps[i], alone)
            && forall r: Range<K> :: !PastEverything(maps[i], r) ==> Iterate(maps[i], together, r) == Iterate(maps[i], alone, r)
  {
    hide Contents, Iterate, Together, Alone, PastEverything;
    var m, together := maps[i], Together(maps, ops, data);
    TogetherIsAlone(cs, maps, ops, i, data);
    ContentsAreOwn(m, together);
    forall r: Range<K> | !PastEverything(m, r)
      ensures Iterate(m, together, r) == Iterate(m, Own(m.prefix, together), r)
    {
      IterateIsOwn(m, together, r);
    }
  }

  /** A map's own operations, on keys and values that can be stored, are those of a mathematical map. */
  lemma {:induction false} TogetherIsPlain<K(!new), V>(
    cs: seq<Collection>, maps: seq<Map<K, V>>, ops: seq<TypedOp<K, V>>, i: nat, data: Data)
    requires Belong(cs, maps) && Addressed(maps, ops) && i < |maps|
    requires forall j :: 0 <= j < |ops| && ops[j].at == i ==> Usable(maps[i], ops[j])
    ensures Contents(maps[i], Together(maps, ops, data)) == Plain(ops, i, Contents(maps[i], data))
    decreases |ops|
  {
    hide Contents, Whole, Keeps;
    if ops != [] {
      var op, m := ops[0], maps[i];
      var next := Do(maps[op.at], op, data);
      if op.at != i {
        DoIsOwn(maps[op.at], op, data);
        assert Apart(m.prefix, maps[op.at].prefix);
        OtherContentsUnchanged(m, maps[op.at].prefix, data, next);
      } else if op.SetAt? {
        SetContents(m, data, op.key, op.value);
        KeptIsEncoded(m.vc, op.value);
      } else {
        RemoveContents(m, data, op.key);
      }
      TogetherIsPlain(cs, maps, ops[1..], i, next);
    }
  }

  lemma KeptIsEncoded<V>(vc: ValueCodec<V>, v: V)
    requires Keeps(vc, v)
    ensures vc.encode(v).Some?
  {
  }
}
