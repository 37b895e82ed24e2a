/** Collections that share one key-value store, each under its own prefix. */
module Schemas {
  import opened Wrappers
  import opened ByteStrings

  type Data = map<Bytes, Bytes>

  // ---------------------------------------------------------------- prefixes

  /** Neither is a prefix of the other. */
  predicate Apart(p: Bytes, q: Bytes) {
    !(p <= q) && !(q <= p)
  }

  /** The part of the store under prefix `p`. */
  function Own(p: Bytes, data: Data): Data {
    map k | k in data && p <= k :: data[k]
  }

  /** A write under one prefix shows under that prefix, and nowhere else. */
  lemma OwnWrite(p: Bytes, q: Bytes, k: Bytes, v: Bytes, data: Data)
    requires p == q || Apart(p, q)
    requires q <= k
    ensures Own(p, data[k := v]) == if p == q then Own(p, data)[k := v] else Own(p, data)
    ensures Own(p, data - {k}) == if p == q then Own(p, data) - {k} else Own(p, data)
  {
  }

  // ---------------------------------------------------------------- schemas

  datatype Collection = Collection(prefix: Bytes, name: string)

  predicate Letter(c: char) {
    'A' <= c <= 'Z' || 'a' <= c <= 'z'
  }

  predicate ValidName(name: string) {
    name != [] && Letter(name[0]) && forall c :: c in name ==> Letter(c) || '0' <= c <= '9' || c == '_'
  }

  /** No two of the collections can get in each other's way. */
  predicate Separate(cs: seq<Collection>) {
    && (forall i :: 0 <= i < |cs| ==> ValidName(cs[i].name))
    && (forall i, j :: 0 <= i < j < |cs| ==> Apart(cs[i].prefix, cs[j].prefix) && cs[i].name != cs[j].name)
  }

  /** What registration alone makes sure of. */
  predicate Distinct(cs: seq<Collection>) {
    && (forall i :: 0 <= i < |cs| ==> ValidName(cs[i].name))
    && (forall i, j :: 0 <= i < j < |cs| ==> cs[i].prefix != cs[j].prefix && cs[i].name != cs[j].name)
  }

  lemma DistinctGrows(cs: seq<Collection>, c: Collection)
    ensures Distinct(cs + [c]) <==>
            Distinct(cs) && ValidName(c.name) && forall d :: d in cs ==> d.prefix != c.prefix && d.name != c.name
  {
    var all := cs + [c];
    assert all[..|cs|] == cs && all[|cs|] == c;
    if Distinct(all) {
      assert forall i :: 0 <= i < |cs| ==> all[i] == cs[i];
    }
  }

  class SchemaBuilder {
    var byPrefix: map<Bytes, Collection>
    var byName: map<string, Collection>
    var failed: bool
    var built: bool
    /** Everything that was ever added. */
    ghost var added: seq<Collection>

    ghost predicate Valid()
      reads this
    {
      && failed == !Distinct(added)
      && (!failed ==> forall c :: c in added ==> c.prefix in byPrefix && c.name in byName && byName[c.name] == c)
      && (!failed ==> forall p :: p in byPrefix ==> byPrefix[p] in added && byPrefix[p].prefix == p)
      && (!failed ==> forall n :: n in byName ==> byName[n] in added && byName[n].name == n)
    }

    constructor ()
      ensures Valid() && added == [] && !built
    {
      byPrefix, byName, failed, built, added := map[], map[], false, false, [];
    }

    method AddCollection(c: Collection)
      requires Valid() && !built
      modifies this
      ensures Valid() && !built && added == old(added) + [c]
    {
      DistinctGrows(added, c);
      added := added + [c];
      if c.prefix in byPrefix || c.name in byName || !ValidName(c.name) {
        failed := true;
        return;
      }
      byPrefix := byPrefix[c.prefix := c];
      byName := byName[c.name := c];
    }

    /** Succeeds exactly when all that was ever added can live side by side, and hands out just that. */
    method Build() returns (schema: Option<map<string, Collection>>)
      requires Valid() && !built
      modifies this
      ensures Valid() && added == old(added) && built == schema.Some?
      ensures schema.Some? <==> Separate(added)
      ensures schema.Some? ==> forall c :: c in added <==> c.name in schema.value && schema.value[c.name] == c
    {
      if failed {
        SeparateIsDistinct(added);
        return None;
      }
      var outer := byPrefix.Keys;
      ghost var seen: set<Bytes> := {};
      while outer != {}
        invariant outer + seen == byPrefix.Keys
        invariant forall p, q :: p in seen && q in byPrefix && p != q ==> !(q <= p)
        decreases outer
      {
        var p :| p in outer;
        var inner := byPrefix.Keys;
        while inner != {}
          invariant inner <= byPrefix.Keys
          invariant forall q :: q in byPrefix && q !in inner && p != q ==> !(q <= p)
          decreases inner
        {
          var q :| q in inner;
          if p != q && q <= p {
            OverlapFound(added, byPrefix[p], byPrefix[q]);
            return None;
          }
          inner := inner - {q};
        }
        outer, seen := outer - {p}, seen + {p};
      }
      NoOverlap(added);
      built := true;
      return Some(byName);
    }
  }

  lemma SeparateIsDistinct(cs: seq<Collection>)
    ensures Separate(cs) ==> Distinct(cs)
  {
  }

  lemma OverlapFound(cs: seq<Collection>, c: Collection, d: Collection)
    requires c in cs && d in cs && c.prefix != d.prefix && d.prefix <= c.prefix
    ensures !Separate(cs)
  {
    var i :| 0 <= i < |cs| && cs[i] == c;
    var j :| 0 <= j < |cs| && cs[j] == d;
    assert !Apart(cs[i].prefix, cs[j].prefix) && !Apart(cs[j].prefix, cs[i].prefix);
  }

  lemma NoOverlap(cs: seq<Collection>)
    requires Distinct(cs) && forall c, d :: c in cs && d in cs && c.prefix != d.prefix ==> !(d.prefix <= c.prefix)
    ensures Separate(cs)
  {
    forall i, j | 0 <= i < j < |cs|
      ensures Apart(cs[i].prefix, cs[j].prefix)
    {
      assert cs[i] in cs && cs[j] in cs;
    }
  }

  // ---------------------------------------------------------------- independence

  /** An operation of collection `at`, on a key of its own. */
  datatype Op = Put(at: nat, key: Bytes, value: Bytes) | Delete(at: nat, key: Bytes)

  predicate Fits(cs: seq<Collection>, ops: seq<Op>) {
    forall op :: op in ops ==> op.at < |cs|
  }

  /** What the operation does to a store, its key under prefix `p`. */
  function Apply(op: Op, p: Bytes, data: Data): Data {
    match op
    case Put(_, key, value) => data[p + key := value]
    case Delete(_, key) => data - {p + key}
  }

  /** All operations go to one store. */
  function RunShared(cs: seq<Collection>, ops: seq<Op>, data: Data): Data
    requires Fits(cs, ops)
    decreases ops
  {
    if ops == [] then data
    else RunShared(cs, ops[1..], Apply(ops[0], cs[ops[0].at].prefix, data))
  }

  /** Each collection has a store to itself; collection `i` sees its own operations only. */
  function RunAlone(cs: seq<Collection>, ops: seq<Op>, i: nat, data: Data): Data
    requires Fits(cs, ops) && i < |cs|
    decreases ops
  {
    if ops == [] then data
    else RunAlone(cs, ops[1..], i, if ops[0].at == i then Apply(ops[0], cs[i].prefix, data) else data)
  }

  /** Over any run, the collections of a schema that was built behave as if none of them shared anything. */
  lemma {:induction false} SharedIsIndependent(cs: seq<Collection>, ops: seq<Op>, i: nat, data: Data)
    requires Separate(cs) && Fits(cs, ops) && i < |cs|
    ensures Own(cs[i].prefix, RunShared(cs, ops, data)) == RunAlone(cs, ops, i, Own(cs[i].prefix, data))
    decreases ops
  {
    if ops != [] {
      var op, p := ops[0], cs[i].prefix;
      var q := cs[op.at].prefix;
      assert op.at != i ==> Apart(p, q);
      OwnWrite(p, q, q + op.key, if op.Put? then op.value else [], data);
      SharedIsIndependent(cs, ops[1..], i, Apply(op, q, data));
    }
  }
}
