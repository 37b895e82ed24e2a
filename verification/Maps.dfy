/** Typed maps over a shared store. */
module Maps {
  import opened Wrappers
  import opened ByteStrings
  import opened KeyCodecs
  import opened Schemas

  /** `OutOfBounds` is the panic of slicing past the end. */
  datatype Error = Encoding | NotFound | Conflict | NoReference | InvalidIterator | InvalidOrder | OutOfBounds

  datatype ValueCodec<!V> = ValueCodec(encode: V -> Option<Bytes>, decode: Bytes -> Option<V>)

  datatype Map<!K, !V> = Map(prefix: Bytes, kc: KeyCodec<K>, vc: ValueCodec<V>)

  /** The value comes back from its bytes. */
  predicate Keeps<V(==)>(vc: ValueCodec<V>, v: V) {
    vc.encode(v).Some? && vc.decode(vc.encode(v).value) == Some(v)
  }

  class KVStore {
    var data: Data

    constructor ()
      ensures data == map[]
    {
      data := map[];
    }
  }

  // ---------------------------------------------------------------- keys

  /** The bytes a key is stored under: the prefix, and then a fresh buffer of the advertised size, encoded into. */
  function EncodeKeyWithPrefix<K>(prefix: Bytes, kc: KeyCodec<K>, key: K): Option<Bytes> {
    var f := kc.terminal;
    var r := f.encode(Zeros(f.size(key)), key);
    if r.None? then None else Some(prefix + r.value.1)
  }

  lemma KeyBytes<K>(prefix: Bytes, kc: KeyCodec<K>, key: K)
    ensures EncodeKeyWithPrefix(prefix, kc, key).Some? ==>
              EncodeKeyWithPrefix(prefix, kc, key) == Some(prefix + Enc(kc.terminal, key))
    ensures Whole(kc, key) ==> EncodeKeyWithPrefix(prefix, kc, key).Some?
  {
    if Whole(kc, key) {
      WritesItself(kc.terminal, key);
    }
  }

  function KeyOf<K, V>(m: Map<K, V>, key: K): Option<Bytes> {
    EncodeKeyWithPrefix(m.prefix, m.kc, key)
  }

  /** Different keys have different places. */
  lemma KeysDiffer<K, V>(m: Map<K, V>, j: K, k: K)
    requires Whole(m.kc, j) && Whole(m.kc, k) && KeyOf(m, j) == KeyOf(m, k)
    ensures j == k
  {
    KeyBytes(m.prefix, m.kc, j);
    KeyBytes(m.prefix, m.kc, k);
    var p, a, b := m.prefix, Enc(m.kc.terminal, j), Enc(m.kc.terminal, k);
    assert (p + a)[|p|..] == a && (p + b)[|p|..] == b;
    EncIsInjective(m.kc.terminal, j, k);
  }

  // ---------------------------------------------------------------- contents

  /** The stored bytes stand for a value. */
  predicate Holds<K, V>(m: Map<K, V>, data: Data, k: K) {
    var key := KeyOf(m, k);
    key.Some? && key.value in data && m.vc.decode(data[key.value]).Some?
  }

  function Held<K, V>(m: Map<K, V>, data: Data, k: K): V
    requires Holds(m, data, k)
  {
    m.vc.decode(data[KeyOf(m, k).value]).value
  }

  /** The mathematical map a store holds for `m`. */
  ghost function Contents<K(!new), V>(m: Map<K, V>, data: Data): imap<K, V> {
    imap k | Whole(m.kc, k) && Holds(m, data, k) :: Held(m, data, k)
  }

  /** A map's contents are all under its own prefix. */
  lemma ContentsAreOwn<K(!new), V>(m: Map<K, V>, data: Data)
    ensures Contents(m, Own(m.prefix, data)) == Contents(m, data)
  {
    forall k: K
      ensures Holds(m, Own(m.prefix, data), k) <==> Holds(m, data, k)
    {
      KeyBytes(m.prefix, m.kc, k);
    }
  }

  lemma SetContents<K(!new), V>(m: Map<K, V>, data: Data, key: K, value: V)
    requires Whole(m.kc, key) && Keeps(m.vc, value)
    ensures KeyOf(m, key).Some?
    ensures Contents(m, data[KeyOf(m, key).value := m.vc.encode(value).value]) == Contents(m, data)[key := value]
  {
    KeyBytes(m.prefix, m.kc, key);
    var place := KeyOf(m, key).value;
    var after := data[place := m.vc.encode(value).value];
    forall k | Whole(m.kc, k) && k != key
      ensures Holds(m, after, k) <==> Holds(m, data, k)
      ensures Holds(m, data, k) ==> Held(m, after, k) == Held(m, data, k)
    {
      if KeyOf(m, k) == KeyOf(m, key) {
        KeysDiffer(m, k, key);
      }
    }
  }

  lemma RemoveContents<K(!new), V>(m: Map<K, V>, data: Data, key: K)
    requires Whole(m.kc, key)
    ensures KeyOf(m, key).Some?
    ensures Contents(m, data - {KeyOf(m, key).value}) == Contents(m, data) - {key}
  {
    KeyBytes(m.prefix, m.kc, key);
    var place := KeyOf(m, key).value;
    var after := data - {place};
    forall k | Whole(m.kc, k) && k != key
      ensures Holds(m, after, k) <==> Holds(m, data, k)
    {
      if KeyOf(m, k) == KeyOf(m, key) {
        KeysDiffer(m, k, key);
      }
    }
  }

  /** Everything stored under the prefix is an entry: a key that can stand alone, and bytes that decode. */
  ghost predicate Clean<K(!new), V>(m: Map<K, V>, data: Data) {
    forall k :: k in Own(m.prefix, data) ==> exists j :: Stored(m, data, k, j)
  }

  ghost predicate Stored<K, V>(m: Map<K, V>, data: Data, k: Bytes, j: K) {
    Whole(m.kc, j) && KeyOf(m, j) == Some(k) && Holds(m, data, j)
  }

  lemma CleanIsOwn<K(!new), V>(m: Map<K, V>, a: Data, b: Data)
    requires Own(m.prefix, a) == Own(m.prefix, b) && Clean(m, a)
    ensures Clean(m, b)
  {
    forall k | k in Own(m.prefix, b)
      ensures exists j :: Stored(m, b, k, j)
    {
      assert k in Own(m.prefix, a);
      var j :| Stored(m, a, k, j);
      KeyBytes(m.prefix, m.kc, j);
      assert Own(m.prefix, a)[k] == Own(m.prefix, b)[k];
      assert Stored(m, b, k, j);
    }
  }

  /** In a clean collection, what is stored at a key's place is that key's value. */
  lemma CleanHolds<K(!new), V>(m: Map<K, V>, data: Data, k: K)
    requires Clean(m, data) && Whole(m.kc, k)
    ensures KeyOf(m, k).Some? && (KeyOf(m, k).value in data <==> k in Contents(m, data))
  {
    KeyBytes(m.prefix, m.kc, k);
    var place := KeyOf(m, k).value;
    if place in data {
      assert place in Own(m.prefix, data);
      var j :| Stored(m, data, place, j);
      KeysDiffer(m, j, k);
    }
  }

  /** Setting a key that can stand alone keeps a collection clean. */
  lemma SetKeepsClean<K(!new), V>(m: Map<K, V>, data: Data, key: K, value: V)
    requires Clean(m, data) && Whole(m.kc, key) && Keeps(m.vc, value)
    ensures KeyOf(m, key).Some? && Clean(m, data[KeyOf(m, key).value := m.vc.encode(value).value])
  {
    KeyBytes(m.prefix, m.kc, key);
    var place := KeyOf(m, key).value;
    var after := data[place := m.vc.encode(value).value];
    assert Stored(m, after, place, key);
    forall k | k in Own(m.prefix, after) && k != place
      ensures exists j :: Stored(m, after, k, j)
    {
      assert k in Own(m.prefix, data);
      var j :| Stored(m, data, k, j);
      assert Stored(m, after, k, j);
    }
  }

  /** Removing any key keeps a collection clean. */
  lemma RemoveKeepsClean<K(!new), V>(m: Map<K, V>, data: Data, key: K)
    requires Clean(m, data)
    ensures Clean(m, RemoveIn(m, data, key).0)
  {
    var after := RemoveIn(m, data, key).0;
    forall k | k in Own(m.prefix, after)
      ensures exists j :: Stored(m, after, k, j)
    {
      assert k in Own(m.prefix, data);
      var j :| Stored(m, data, k, j);
      assert Stored(m, after, k, j);
    }
  }

  // ---------------------------------------------------------------- operations

  function SetIn<K, V>(m: Map<K, V>, data: Data, key: K, value: V): (Data, Result<(), Error>) {
    var place := KeyOf(m, key);
    var bytes := m.vc.encode(value);
    if place.None? || bytes.None? then (data, Err(Encoding)) else (data[place.value := bytes.value], Ok(()))
  }

  function RemoveIn<K, V>(m: Map<K, V>, data: Data, key: K): (Data, Result<(), Error>) {
    var place := KeyOf(m, key);
    if place.None? then (data, Err(Encoding)) else (data - {place.value}, Ok(()))
  }

  function HasIn<K, V>(m: Map<K, V>, data: Data, key: K): Result<bool, Error> {
    var place := KeyOf(m, key);
    if place.None? then Err(Encoding) else Ok(place.value in data)
  }

  function GetIn<K, V>(m: Map<K, V>, data: Data, key: K): Result<V, Error> {
    var place := KeyOf(m, key);
    if place.None? then Err(Encoding)
    else if place.value !in data then Err(NotFound)
    else
      var v := m.vc.decode(data[place.value]);
      if v.None? then Err(Encoding) else Ok(v.value)
  }

  /** Collections elsewhere in the store notice nothing. */
  ghost predicate OthersUnchanged(p: Bytes, before: Data, after: Data) {
    forall q :: Apart(q, p) ==> Own(q, after) == Own(q, before)
  }

  method Set<K(!new), V(==)>(m: Map<K, V>, store: KVStore, key: K, value: V) returns (r: Result<(), Error>)
    modifies store
    ensures (store.data, r) == SetIn(m, old(store.data), key, value)
    ensures r.Err? ==> store.data == old(store.data)
    ensures OthersUnchanged(m.prefix, old(store.data), store.data)
    ensures Whole(m.kc, key) && Keeps(m.vc, value) ==>
              r.Ok? && Contents(m, store.data) == old(Contents(m, store.data))[key := value]
  {
    var place := EncodeKeyWithPrefix(m.prefix, m.kc, key);
    if place.None? {
      KeyBytes(m.prefix, m.kc, key);
      return Err(Encoding);
    }
    var bytes := m.vc.encode(value);
    if bytes.None? {
      return Err(Encoding);
    }
    KeepOthers(m.prefix, place.value, bytes.value, store.data);
    if Whole(m.kc, key) && Keeps(m.vc, value) {
      SetContents(m, store.data, key, value);
    }
    store.data := store.data[place.value := bytes.value];
    return Ok(());
  }

  method Get<K(!new), V>(m: Map<K, V>, store: KVStore, key: K) returns (r: Result<V, Error>)
    ensures Whole(m.kc, key) ==>
              (r.Ok? <==> key in Contents(m, store.data)) && (r.Ok? ==> r.value == Contents(m, store.data)[key])
    ensures r == GetIn(m, store.data, key)
    ensures r == Err(NotFound) <==> KeyOf(m, key).Some? && KeyOf(m, key).value !in store.data
  {
    KeyBytes(m.prefix, m.kc, key);
    var place := EncodeKeyWithPrefix(m.prefix, m.kc, key);
    if place.None? {
      return Err(Encoding);
    }
    if place.value !in store.data {
      return Err(NotFound);
    }
    var v := m.vc.decode(store.data[place.value]);
    if v.None? {
      return Err(Encoding);
    }
    return Ok(v.value);
  }

  method Has<K, V>(m: Map<K, V>, store: KVStore, key: K) returns (r: Result<bool, Error>)
    ensures r == HasIn(m, store.data, key)
    ensures r.Ok? ==> (r.value <==> KeyOf(m, key).value in Own(m.prefix, store.data))
  {
    KeyBytes(m.prefix, m.kc, key);
    var place := EncodeKeyWithPrefix(m.prefix, m.kc, key);
    if place.None? {
      return Err(Encoding);
    }
    return Ok(place.value in store.data);
  }

  method Remove<K(!new), V>(m: Map<K, V>, store: KVStore, key: K) returns (r: Result<(), Error>)
    modifies store
    ensures (store.data, r) == RemoveIn(m, old(store.data), key)
    ensures r.Err? ==> store.data == old(store.data)
    ensures OthersUnchanged(m.prefix, old(store.data), store.data)
    ensures Whole(m.kc, key) ==> r.Ok? && Contents(m, store.data) == old(Contents(m, store.data)) - {key}
  {
    KeyBytes(m.prefix, m.kc, key);
    var place := EncodeKeyWithPrefix(m.prefix, m.kc, key);
    if place.None? {
      return Err(Encoding);
    }
    KeepOthers(m.prefix, place.value, [], store.data);
    if Whole(m.kc, key) {
      RemoveContents(m, store.data, key);
    }
    store.data := store.data - {place.value};
    return Ok(());
  }

  lemma KeepOthers(p: Bytes, k: Bytes, v: Bytes, data: Data)
    requires p <= k
    ensures OthersUnchanged(p, data, data[k := v]) && OthersUnchanged(p, data, data - {k})
  {
    forall q | Apart(q, p)
      ensures Own(q, data[k := v]) == Own(q, data) && Own(q, data - {k}) == Own(q, data)
    {
      OwnWrite(q, p, k, v, data);
    }
  }

  /** Whatever the key and the value, a map writes under its own prefix only. */
  lemma StaysInside<K, V>(m: Map<K, V>, data: Data, key: K, value: V)
    ensures OthersUnchanged(m.prefix, data, SetIn(m, data, key, value).0)
    ensures OthersUnchanged(m.prefix, data, RemoveIn(m, data, key).0)
  {
    KeyBytes(m.prefix, m.kc, key);
    if KeyOf(m, key).Some? {
      KeepOthers(m.prefix, KeyOf(m, key).value, if m.vc.encode(value).Some? then m.vc.encode(value).value else [], data);
    }
  }

  /** What leaves a map's part of the store alone leaves its contents alone. */
  lemma OtherContentsUnchanged<K(!new), V>(m: Map<K, V>, p: Bytes, before: Data, after: Data)
    requires OthersUnchanged(p, before, after) && Apart(m.prefix, p)
    ensures Contents(m, after) == Contents(m, before)
  {
    ContentsAreOwn(m, before);
    ContentsAreOwn(m, after);
  }

  // ---------------------------------------------------------------- clean collections

  /** The map's own part of the store is clean and holds `contents`; the rest is as it was. */
  ghost predicate Became<K(!new), V>(m: Map<K, V>, before: Data, after: Data, contents: imap<K, V>) {
    Clean(m, after) && Contents(m, after) == contents && OthersUnchanged(m.prefix, before, after)
  }

  lemma SetBecomes<K(!new), V>(m: Map<K, V>, data: Data, key: K, value: V)
    requires Clean(m, data) && Whole(m.kc, key) && Keeps(m.vc, value)
    ensures var (after, r) := SetIn(m, data, key, value);
            r.Ok? && Became(m, data, after, Contents(m, data)[key := value])
  {
    hide Clean, Contents, OthersUnchanged;
    KeyBytes(m.prefix, m.kc, key);
    SetContents(m, data, key, value);
    SetKeepsClean(m, data, key, value);
    KeepOthers(m.prefix, KeyOf(m, key).value, m.vc.encode(value).value, data);
  }

  lemma RemoveBecomes<K(!new), V>(m: Map<K, V>, data: Data, key: K)
    requires Clean(m, data) && Whole(m.kc, key)
    ensures var (after, r) := RemoveIn(m, data, key);
            r.Ok? && Became(m, data, after, Contents(m, data) - {key})
  {
    hide Clean, Contents, OthersUnchanged;
    KeyBytes(m.prefix, m.kc, key);
    RemoveContents(m, data, key);
    RemoveKeepsClean(m, data, key);
    KeepOthers(m.prefix, KeyOf(m, key).value, [], data);
  }

  /** Reading a clean collection is reading its contents. */
  lemma GetReads<K(!new), V>(m: Map<K, V>, data: Data, key: K)
    requires Clean(m, data) && Whole(m.kc, key)
    ensures var p := Contents(m, data);
            && GetIn(m, data, key) == (if key in p then Ok(p[key]) else Err(NotFound))
            && HasIn(m, data, key) == Ok(key in p)
  {
    CleanHolds(m, data, key);
  }

  lemma ContentsAreWhole<K(!new), V>(m: Map<K, V>, data: Data, key: K)
    requires key in Contents(m, data)
    ensures Whole(m.kc, key)
  {
  }
}
