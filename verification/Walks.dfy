/** Walking over the typed entries of a collection. */
module Walks {
  import opened Wrappers
  import opened ByteStrings
  import opened Schemas
  import opened Maps
  import opened Ranges

  /** What a visitor answers, given what it has gathered so far and an entry. */
  datatype Answer<A> = Continue(acc: A) | Stop(acc: A) | Refuse

  datatype Walked<A> = Done(acc: A) | Refused | Broken(error: Error)

  /** The entry an iterator stands on. */
  function KeyValue<K, V>(m: Map<K, V>, data: Data, raw: Bytes): Result<(K, V), Error>
    requires raw in data
  {
    var key := IteratorKey(m, raw);
    var value := m.vc.decode(data[raw]);
    if key.Err? then Err(key.error) else if value.None? then Err(Encoding) else Ok((key.value, value.value))
  }

  // ---------------------------------------------------------------- what a walk is

  /** A visitor shown entries one after another, until it stops or refuses. */
  function Visit<A, K, V>(visit: (A, K, V) -> Answer<A>, acc: A, es: seq<(K, V)>): Walked<A> {
    if es == [] then Done(acc)
    else match visit(acc, es[0].0, es[0].1)
      case Continue(a) => Visit(visit, a, es[1..])
      case Stop(a) => Done(a)
      case Refuse => Refused
  }

  /** `es` are the entries stored under `ks`, one for one. */
  ghost predicate Entries<K, V>(m: Map<K, V>, data: Data, ks: seq<Bytes>, es: seq<(K, V)>) {
    |es| == |ks| && forall i :: 0 <= i < |ks| ==> Stored(m, data, ks[i], es[i].0) && es[i].1 == Held(m, data, es[i].0)
  }

  lemma EntryComesBack<K, V>(m: Map<K, V>, data: Data, k: Bytes, j: K)
    requires Stored(m, data, k, j)
    ensures k in data && KeyValue(m, data, k) == Ok((j, Held(m, data, j)))
  {
    KeyComesBack(m, j);
  }

  lemma {:induction false} EntriesExist<K(!new), V>(m: Map<K, V>, data: Data, ks: seq<Bytes>) returns (es: seq<(K, V)>)
    requires Clean(m, data) && forall k :: k in ks ==> k in Own(m.prefix, data)
    ensures Entries(m, data, ks, es)
  {
    es := [];
    while |es| < |ks|
      invariant |es| <= |ks| && Entries(m, data, ks[..|es|], es)
    {
      var k := ks[|es|];
      assert k in ks;
      var j :| Stored(m, data, k, j);
      es := es + [(j, Held(m, data, j))];
    }
    assert ks[..|es|] == ks;
  }

  lemma IterateIsStored<K, V>(m: Map<K, V>, data: Data, r: Range<K>)
    requires Iterate(m, data, r).Ok?
    ensures forall i :: 0 <= i < |Iterate(m, data, r).value| ==> Iterate(m, data, r).value[i] in data
  {
    var bounds := IterationBounds(m, r).value;
    var ks := StoreKeys(data, bounds.0, bounds.1);
    assert forall i :: 0 <= i < |ks| ==> ks[i] in ks;
  }

  // ---------------------------------------------------------------- walking

  /** Walks over the keys of an iteration. */
  method WalkOver<K(!new), V, A>(m: Map<K, V>, data: Data, ks: seq<Bytes>, visit: (A, K, V) -> Answer<A>, init: A, ghost es: seq<(K, V)>)
    returns (w: Walked<A>)
    requires forall i :: 0 <= i < |ks| ==> ks[i] in data
    ensures Entries(m, data, ks, es) ==> w == Visit(visit, init, es)
  {
    var acc := init;
    for i := 0 to |ks|
      invariant Entries(m, data, ks, es) ==> Visit(visit, acc, es[i..]) == Visit(visit, init, es)
    {
      var kv := KeyValue(m, data, ks[i]);
      if Entries(m, data, ks, es) {
        EntryComesBack(m, data, ks[i], es[i].0);
        assert es[i..][0] == es[i] && es[i..][1..] == es[i + 1..];
      }
      if kv.Err? {
        return Broken(kv.error);
      }
      var answer := visit(acc, kv.value.0, kv.value.1);
      match answer {
        case Continue(a) => acc := a;
        case Stop(a) => return Done(a);
        case Refuse => return Refused;
      }
    }
    return Done(acc);
  }

  /** The entries of a clean collection within a range, in the order of their keys: its contents, no more and no less. */
  lemma RangeOfContents<K(!new), V>(m: Map<K, V>, data: Data, r: Range<K>) returns (ks: seq<Bytes>, es: seq<(K, V)>)
    requires Clean(m, data) && IterationBounds(m, r).Ok? && !r.order.UnknownOrder? && !PastEverything(m, r)
    ensures Iterate(m, data, r) == if ks == [] then Err(InvalidIterator) else Ok(ks)
    ensures InOrder(ks, r.order) && Entries(m, data, ks, es)
    ensures forall j :: j in Contents(m, data) && InRange(m, r, KeyOf(m, j).value) <==> exists i :: 0 <= i < |es| && es[i].0 == j
    ensures forall i :: 0 <= i < |es| ==> es[i].0 in Contents(m, data) && es[i].1 == Contents(m, data)[es[i].0]
  {
    IterateIsExact(m, data, r);
    ks := if Iterate(m, data, r).Ok? then Iterate(m, data, r).value else [];
    es := EntriesExist(m, data, ks);
    forall j | j in Contents(m, data) && InRange(m, r, KeyOf(m, j).value)
      ensures exists i :: 0 <= i < |es| && es[i].0 == j
    {
      KeyBytes(m.prefix, m.kc, j);
      var k := KeyOf(m, j).value;
      assert k in Own(m.prefix, data) && k in ks;
      var i :| 0 <= i < |ks| && ks[i] == k;
      KeysDiffer(m, es[i].0, j);
    }
    forall i | 0 <= i < |es|
      ensures InRange(m, r, KeyOf(m, es[i].0).value)
    {
      assert ks[i] in ks;
    }
  }

  /**
    * Walking shows the visitor the collection's contents in the range, in the order of their keys, until it stops: an
    * empty range is an error, as for iterating.
    */
  method Walk<K(!new), V, A>(m: Map<K, V>, store: KVStore, r: Range<K>, visit: (A, K, V) -> Answer<A>, init: A)
    returns (w: Walked<A>, ghost es: seq<(K, V)>)
    ensures Iterate(m, store.data, r).Err? ==> w == Broken(Iterate(m, store.data, r).error)
    ensures Iterate(m, store.data, r).Ok? && !PastEverything(m, r) && Clean(m, store.data) ==>
              Entries(m, store.data, Iterate(m, store.data, r).value, es) && w == Visit(visit, init, es)
  {
    es := [];
    var ks := Iterate(m, store.data, r);
    if ks.Err? {
      return Broken(ks.error), es;
    }
    IterateIsStored(m, store.data, r);
    if !PastEverything(m, r) && Clean(m, store.data) {
      IterateIsExact(m, store.data, r);
      es := EntriesExist(m, store.data, ks.value);
    }
    w := WalkOver(m, store.data, ks.value, visit, init, es);
  }
}
