/** A map with any number of indexes, all of them collections of one store. */
module IndexedMaps {
  import opened Wrappers
  import opened ByteStrings
  import opened KeyCodecs
  import opened Schemas
  import opened Maps
  import opened Ranges
  import opened Runes
  import opened StandardKeys

  /**
    * How an index finds the reference key of a value, and how it is stored. A unique index maps reference keys to
    * primary keys, so that each has one owner; any other index is a set of pairs of the two.
    */
  datatype Index<!K, !V, !R> = Index(unique: bool, prefix: Bytes, rc: KeyCodec<R>, pc: KeyCodec<K>, refOf: (K, V) -> Option<R>)

  datatype IndexedMap<!K, !V, !R> = IndexedMap(primary: Map<K, V>, indexes: seq<Index<K, V, R>>)

  type Done = (Data, Result<(), Error>)

  /** A key codec used for values: the whole of the bytes must be used up. */
  function KeyToValueCodec<K>(kc: KeyCodec<K>): ValueCodec<K> {
    ValueCodec(
      (k: K) => var r := kc.terminal.encode(Zeros(kc.terminal.size(k)), k); if r.None? then None else Some(r.value.1),
      (b: Bytes) => var r := kc.terminal.decode(b); if r.None? || r.value.0 != |b| then None else Some(r.value.1))
  }

  function NoValue(): ValueCodec<()> {
    ValueCodec((v: ()) => Some([]), (b: Bytes) => if b == [] then Some(()) else None)
  }

  function Owners<K, V, R>(ix: Index<K, V, R>): Map<R, K> {
    Map(ix.prefix, ix.rc, KeyToValueCodec(ix.pc))
  }

  function Pairs<K, V, R>(ix: Index<K, V, R>): Map<Pair<R, K>, ()> {
    Map(ix.prefix, PairKeyCodec(ix.rc, ix.pc), NoValue())
  }

  // ---------------------------------------------------------------- one index

  /** Removes the reference of a value. */
  function Drop<K, V, R>(ix: Index<K, V, R>, data: Data, pk: K, was: V): Done {
    var r := ix.refOf(pk, was);
    if r.None? then (data, Err(NoReference))
    else if ix.unique then RemoveIn(Owners(ix), data, r.value)
    else RemoveIn(Pairs(ix), data, Join(r.value, pk))
  }

  function Add<K, V, R>(ix: Index<K, V, R>, data: Data, pk: K, value: V): Done {
    var r := ix.refOf(pk, value);
    if r.None? then (data, Err(NoReference))
    else if ix.unique then
      var has := HasIn(Owners(ix), data, r.value);
      if has.Err? then (data, Err(has.error))
      else if has.value then (data, Err(Conflict))
      else SetIn(Owners(ix), data, r.value, pk)
    else SetIn(Pairs(ix), data, Join(r.value, pk), ())
  }

  /** Drops the old value's reference, if there was one, and adds the new value's. */
  function Reference<K, V, R>(ix: Index<K, V, R>, data: Data, pk: K, value: V, was: Result<V, Error>): Done {
    if was == Err(NotFound) then Add(ix, data, pk, value)
    else if was.Err? then (data, Err(was.error))
    else
      var dropped := Drop(ix, data, pk, was.value);
      if dropped.1.Err? then dropped else Add(ix, dropped.0, pk, value)
  }

  function Unreference<K, V, R>(ix: Index<K, V, R>, data: Data, pk: K, was: Result<V, Error>): Done {
    if was.Err? then (data, Err(was.error)) else Drop(ix, data, pk, was.value)
  }

  // ---------------------------------------------------------------- agreement

  predicate Refers<K, V, R(==)>(ix: Index<K, V, R>, p: imap<K, V>, k: K, r: R) {
    k in p && ix.refOf(k, p[k]) == Some(r)
  }

  /** The index holds exactly the image of `p`, and nothing that is not an entry. */
  ghost predicate Agrees<K(!new), V, R(!new)>(ix: Index<K, V, R>, data: Data, p: imap<K, V>) {
    if ix.unique then Clean(Owners(ix), data) && OwnersAgree(ix, Contents(Owners(ix), data), p)
    else Clean(Pairs(ix), data) && PairsAgree(ix, Contents(Pairs(ix), data), p)
  }

  ghost predicate AllRefer<K(!new), V, R>(ix: Index<K, V, R>, p: imap<K, V>) {
    forall k :: k in p ==> ix.refOf(k, p[k]).Some?
  }

  ghost predicate PairsAgree<K(!new), V, R(!new)>(ix: Index<K, V, R>, pairs: imap<Pair<R, K>, ()>, p: imap<K, V>) {
    AllRefer(ix, p) && forall r, k :: Join(r, k) in pairs <==> Refers(ix, p, k, r)
  }

  ghost predicate OwnersAgree<K(!new), V, R(!new)>(ix: Index<K, V, R>, owners: imap<R, K>, p: imap<K, V>) {
    && AllRefer(ix, p)
    && (forall r :: r in owners ==> Refers(ix, p, owners[r], r))
    && (forall r, k :: Refers(ix, p, k, r) ==> Owned(owners, r, k))
  }

  predicate Owned<K(==), R>(owners: imap<R, K>, r: R, k: K) {
    r in owners && owners[r] == k
  }

  /** The index can keep the pair: what it writes for it comes back. */
  ghost predicate Fits<K, V, R>(ix: Index<K, V, R>, r: R, pk: K) {
    if ix.unique then Whole(ix.rc, r) && Keeps(KeyToValueCodec(ix.pc), pk)
    else Whole(PairKeyCodec(ix.rc, ix.pc), Join(r, pk))
  }

  /** If the value has a reference key at all, the index can keep it. */
  ghost predicate Usable<K, V, R>(ix: Index<K, V, R>, pk: K, value: V) {
    ix.refOf(pk, value).Some? ==> Fits(ix, ix.refOf(pk, value).value, pk)
  }

  /** The new value has a reference key, which nobody else owns if the index is unique. */
  ghost predicate Acceptable<K(!new), V, R>(ix: Index<K, V, R>, p: imap<K, V>, pk: K, value: V) {
    && ix.refOf(pk, value).Some?
    && (ix.unique ==> forall k :: k != pk ==> !Refers(ix, p, k, ix.refOf(pk, value).value))
  }

  function Lookup<K, V>(p: imap<K, V>, pk: K): Result<V, Error> {
    if pk in p then Ok(p[pk]) else Err(NotFound)
  }

  lemma KeyKeeps<K>(kc: KeyCodec<K>, k: K)
    requires Whole(kc, k)
    ensures Keeps(KeyToValueCodec(kc), k)
  {
    WritesItself(kc.terminal, k);
  }

  /** When an index fits, in terms of the codecs it was given. */
  lemma FitsByParts<K, V, R>(ix: Index<K, V, R>, r: R, pk: K)
    requires Whole(ix.pc, pk) && if ix.unique then Whole(ix.rc, r) else Partial(ix.rc, r)
    ensures Fits(ix, r, pk)
  {
    if ix.unique {
      KeyKeeps(ix.pc, pk);
    } else {
      PairIsWhole(ix.rc, ix.pc, r, pk);
    }
  }

  // ---------------------------------------------------------------- one index keeps agreeing

  lemma DropPair<K(!new), V, R(!new)>(ix: Index<K, V, R>, pairs: imap<Pair<R, K>, ()>, p: imap<K, V>, pk: K, r: R)
    requires PairsAgree(ix, pairs, p) && Refers(ix, p, pk, r)
    ensures PairsAgree(ix, pairs - {Join(r, pk)}, p - {pk}) && !PairsAgree(ix, pairs - {Join(r, pk)}, p)
  {
    assert Join(r, pk) !in pairs - {Join(r, pk)};
  }

  lemma AddPair<K(!new), V, R(!new)>(ix: Index<K, V, R>, pairs: imap<Pair<R, K>, ()>, p: imap<K, V>, pk: K, value: V, r: R)
    requires PairsAgree(ix, pairs, p) && pk !in p && ix.refOf(pk, value) == Some(r)
    ensures PairsAgree(ix, pairs[Join(r, pk) := ()], p[pk := value])
  {
  }

  lemma DropOwner<K(!new), V, R(!new)>(ix: Index<K, V, R>, owners: imap<R, K>, p: imap<K, V>, pk: K, r: R)
    requires OwnersAgree(ix, owners, p) && Refers(ix, p, pk, r)
    ensures OwnersAgree(ix, owners - {r}, p - {pk}) && !OwnersAgree(ix, owners - {r}, p)
  {
    assert Owned(owners, r, pk) && !Owned(owners - {r}, r, pk);
    forall s, k | Refers(ix, p - {pk}, k, s)
      ensures Owned(owners - {r}, s, k)
    {
      assert Refers(ix, p, k, s);
    }
  }

  lemma AddOwner<K(!new), V, R(!new)>(ix: Index<K, V, R>, owners: imap<R, K>, p: imap<K, V>, pk: K, value: V, r: R)
    requires OwnersAgree(ix, owners, p) && pk !in p && ix.refOf(pk, value) == Some(r) && r !in owners
    ensures OwnersAgree(ix, owners[r := pk], p[pk := value])
  {
    var q := p[pk := value];
    forall s, k | Refers(ix, q, k, s)
      ensures Owned(owners[r := pk], s, k)
    {
      if k != pk {
        assert Refers(ix, p, k, s) && Owned(owners, s, k);
      }
    }
  }

  /** Dropping an old value's reference: the index is the image without it. */
  lemma DropAgrees<K(!new), V, R(!new)>(ix: Index<K, V, R>, data: Data, p: imap<K, V>, pk: K)
    requires Agrees(ix, data, p) && pk in p
    ensures var (after, res) := Drop(ix, data, pk, p[pk]);
            && res.Ok? && OthersUnchanged(ix.prefix, data, after)
            && Agrees(ix, after, p - {pk}) && !Agrees(ix, after, p)
  {
    hide Clean, Contents, OthersUnchanged, PairsAgree, OwnersAgree, Whole, SetIn, RemoveIn;
    var r := StoredReference(ix, data, p, pk);
    if ix.unique {
      var owners := Contents(Owners(ix), data);
      OwnerIsWhole(ix, data, p, pk, r);
      RemoveBecomes(Owners(ix), data, r);
      DropOwner(ix, owners, p, pk, r);
    } else {
      var pairs := Contents(Pairs(ix), data);
      StoredPairIsWhole(ix, data, p, pk, r);
      RemoveBecomes(Pairs(ix), data, Join(r, pk));
      DropPair(ix, pairs, p, pk, r);
    }
  }

  lemma StoredReference<K(!new), V, R(!new)>(ix: Index<K, V, R>, data: Data, p: imap<K, V>, pk: K) returns (r: R)
    requires Agrees(ix, data, p) && pk in p
    ensures Refers(ix, p, pk, r)
  {
    r := ix.refOf(pk, p[pk]).value;
  }

  lemma OwnerIsWhole<K(!new), V, R(!new)>(ix: Index<K, V, R>, data: Data, p: imap<K, V>, pk: K, r: R)
    requires ix.unique && Agrees(ix, data, p) && Refers(ix, p, pk, r)
    ensures Whole(Owners(ix).kc, r)
  {
    assert Owned(Contents(Owners(ix), data), r, pk);
  }

  lemma StoredPairIsWhole<K(!new), V, R(!new)>(ix: Index<K, V, R>, data: Data, p: imap<K, V>, pk: K, r: R)
    requires !ix.unique && Agrees(ix, data, p) && Refers(ix, p, pk, r)
    ensures Whole(Pairs(ix).kc, Join(r, pk))
  {
    assert Join(r, pk) in Contents(Pairs(ix), data);
  }

  /** Adding a reference for a key that has none: it goes through just when the value is acceptable. */
  lemma AddAgrees<K(!new), V, R(!new)>(ix: Index<K, V, R>, data: Data, p: imap<K, V>, pk: K, value: V)
    requires Agrees(ix, data, p) && pk !in p && Usable(ix, pk, value)
    ensures var (after, res) := Add(ix, data, pk, value);
            && OthersUnchanged(ix.prefix, data, after)
            && (res.Ok? <==> Acceptable(ix, p, pk, value))
            && (res.Ok? ==> Agrees(ix, after, p[pk := value]))
            && (res.Err? ==> after == data)
  {
    hide Clean, Contents, OthersUnchanged, PairsAgree, OwnersAgree, Whole, SetIn, HasIn, Keeps, KeyToValueCodec;
    NothingChanged(ix.prefix, data);
    if ix.refOf(pk, value).Some? {
      var r := ix.refOf(pk, value).value;
      if ix.unique {
        var owners := Contents(Owners(ix), data);
        GetReads(Owners(ix), data, r);
        OwnedIff(ix, owners, p, pk, value, r);
        SetBecomes(Owners(ix), data, r, pk);
        if r !in owners {
          AddOwner(ix, owners, p, pk, value, r);
        }
      } else {
        NoValueKeeps();
        SetBecomes(Pairs(ix), data, Join(r, pk), ());
        AddPair(ix, Contents(Pairs(ix), data), p, pk, value, r);
      }
    }
  }

  lemma NothingChanged(p: Bytes, data: Data)
    ensures OthersUnchanged(p, data, data)
  {
  }

  lemma NoValueKeeps()
    ensures Keeps(NoValue(), ())
  {
  }

  lemma OwnedIff<K(!new), V, R(!new)>(ix: Index<K, V, R>, owners: imap<R, K>, p: imap<K, V>, pk: K, value: V, r: R)
    requires ix.unique && OwnersAgree(ix, owners, p) && pk !in p && ix.refOf(pk, value) == Some(r)
    ensures r !in owners <==> Acceptable(ix, p, pk, value)
  {
    if !Acceptable(ix, p, pk, value) {
      var k :| k != pk && Refers(ix, p, k, r);
      assert Owned(owners, r, k);
    }
  }

  /**
    * An index takes a value just when it is acceptable, and is then the image of the map to come. An index that refuses
    * is the image of the map as it was just when there was no old value, whose reference it would have dropped.
    */
  lemma ReferenceAgrees<K(!new), V, R(!new)>(ix: Index<K, V, R>, data: Data, p: imap<K, V>, pk: K, value: V)
    requires Agrees(ix, data, p) && Usable(ix, pk, value)
    ensures var (after, res) := Reference(ix, data, pk, value, Lookup(p, pk));
            && OthersUnchanged(ix.prefix, data, after)
            && (res.Ok? <==> Acceptable(ix, p, pk, value))
            && (res.Ok? ==> Agrees(ix, after, p[pk := value]))
            && (res.Err? ==> (Agrees(ix, after, p) <==> pk !in p))
  {
    hide Agrees, OthersUnchanged, Usable, Drop, Add;
    if pk in p {
      DropAgrees(ix, data, p, pk);
      var dropped := Drop(ix, data, pk, p[pk]).0;
      AddAgrees(ix, dropped, p - {pk}, pk, value);
      OthersTwice(ix.prefix, data, dropped, Add(ix, dropped, pk, value).0);
      assert (p - {pk})[pk := value] == p[pk := value];
      assert forall k, r :: k != pk ==> (Refers(ix, p - {pk}, k, r) <==> Refers(ix, p, k, r));
    } else {
      AddAgrees(ix, data, p, pk, value);
    }
  }

  lemma OthersTwice(p: Bytes, a: Data, b: Data, c: Data)
    requires OthersUnchanged(p, a, b) && OthersUnchanged(p, b, c)
    ensures OthersUnchanged(p, a, c)
  {
  }

  lemma UnreferenceAgrees<K(!new), V, R(!new)>(ix: Index<K, V, R>, data: Data, p: imap<K, V>, pk: K)
    requires Agrees(ix, data, p)
    ensures var (after, res) := Unreference(ix, data, pk, Lookup(p, pk));
            && OthersUnchanged(ix.prefix, data, after)
            && (res.Ok? <==> pk in p)
            && (res.Ok? ==> Agrees(ix, after, p - {pk}))
            && (res.Err? ==> after == data)
  {
    hide Agrees, OthersUnchanged, Drop;
    if pk in p {
      DropAgrees(ix, data, p, pk);
    } else {
      NothingChanged(ix.prefix, data);
    }
  }

  /** An entry for a key the map does not have. */
  lemma StrayEntry<K(!new), V, R(!new)>(ix: Index<K, V, R>, data: Data, p: imap<K, V>, pk: K, value: V)
    requires Agrees(ix, data, p[pk := value]) && pk !in p
    ensures !Agrees(ix, data, p)
  {
    var q := p[pk := value];
    var r := StoredReference(ix, data, q, pk);
    assert Refers(ix, q, pk, r) && !Refers(ix, p, pk, r);
    assert ix.unique ==> Owned(Contents(Owners(ix), data), r, pk);
  }

  /** An index agrees with an old and a new value of a key just when they have the same reference. */
  lemma SameReference<K(!new), V, R(!new)>(ix: Index<K, V, R>, data: Data, p: imap<K, V>, pk: K, value: V)
    requires Agrees(ix, data, p[pk := value]) && pk in p && ix.refOf(pk, p[pk]).Some?
    requires AllRefer(ix, p)
    ensures Agrees(ix, data, p) <==> ix.refOf(pk, value) == ix.refOf(pk, p[pk])
  {
    var q := p[pk := value];
    hide Contents, Clean;
    var r := StoredReference(ix, data, q, pk);
    var s := ix.refOf(pk, p[pk]).value;
    assert Refers(ix, q, pk, r) && Refers(ix, p, pk, s);
    if r == s {
      assert forall k, t :: Refers(ix, p, k, t) <==> Refers(ix, q, k, t);
    } else {
      assert !Refers(ix, p, pk, r);
      assert ix.unique ==> Owned(Contents(Owners(ix), data), r, pk);
    }
  }

  // ---------------------------------------------------------------- elsewhere in the store

  /** Whether an index agrees depends on its own part of the store only. */
  lemma AgreesIsOwn<K(!new), V, R(!new)>(ix: Index<K, V, R>, a: Data, b: Data, p: imap<K, V>)
    requires Own(ix.prefix, a) == Own(ix.prefix, b) && Agrees(ix, a, p)
    ensures Agrees(ix, b, p)
  {
    hide Clean, Contents;
    if ix.unique {
      CleanIsOwn(Owners(ix), a, b);
      ContentsAreOwn(Owners(ix), a);
      ContentsAreOwn(Owners(ix), b);
    } else {
      CleanIsOwn(Pairs(ix), a, b);
      ContentsAreOwn(Pairs(ix), a);
      ContentsAreOwn(Pairs(ix), b);
    }
  }

  // ---------------------------------------------------------------- all indexes

  /** The map and its indexes are collections that cannot get in each other's way. */
  ghost predicate Arranged<K, V, R>(im: IndexedMap<K, V, R>) {
    && (forall i :: 0 <= i < |im.indexes| ==> Apart(im.indexes[i].prefix, im.primary.prefix))
    && (forall i, j :: 0 <= i < j < |im.indexes| ==> Apart(im.indexes[i].prefix, im.indexes[j].prefix))
  }

  /** Each index reads the old value from the primary map, which nothing has been written to yet. */
  function ReferenceAll<K, V, R>(im: IndexedMap<K, V, R>, data: Data, pk: K, value: V, i: nat): Done
    requires i <= |im.indexes|
    decreases |im.indexes| - i
  {
    if i == |im.indexes| then (data, Ok(()))
    else
      var r := Reference(im.indexes[i], data, pk, value, GetIn(im.primary, data, pk));
      if r.1.Err? then r else ReferenceAll(im, r.0, pk, value, i + 1)
  }

  function UnreferenceAll<K, V, R>(im: IndexedMap<K, V, R>, data: Data, pk: K, i: nat): Done
    requires i <= |im.indexes|
    decreases |im.indexes| - i
  {
    if i == |im.indexes| then (data, Ok(()))
    else
      var r := Unreference(im.indexes[i], data, pk, GetIn(im.primary, data, pk));
      if r.1.Err? then r else UnreferenceAll(im, r.0, pk, i + 1)
  }

  ghost predicate PrimaryIs<K(!new), V, R>(im: IndexedMap<K, V, R>, data: Data, p: imap<K, V>) {
    Clean(im.primary, data) && Contents(im.primary, data) == p
  }

  /** The primary map holds `p`; the first `i` indexes agree with `q`, the rest with `p`. */
  ghost predicate Halfway<K(!new), V, R(!new)>(im: IndexedMap<K, V, R>, data: Data, p: imap<K, V>, q: imap<K, V>, i: nat) {
    && i <= |im.indexes| && PrimaryIs(im, data, p)
    && (forall j :: 0 <= j < i ==> Agrees(im.indexes[j], data, q))
    && (forall j :: i <= j < |im.indexes| ==> Agrees(im.indexes[j], data, p))
  }

  ghost predicate AllAgree<K(!new), V, R(!new)>(im: IndexedMap<K, V, R>, data: Data, p: imap<K, V>) {
    forall i :: 0 <= i < |im.indexes| ==> Agrees(im.indexes[i], data, p)
  }

  /** Every index is the image of the primary map. */
  ghost predicate Consistent<K(!new), V, R(!new)>(im: IndexedMap<K, V, R>, data: Data) {
    Clean(im.primary, data) && AllAgree(im, data, Contents(im.primary, data))
  }

  lemma PrimaryKept<K(!new), V, R>(im: IndexedMap<K, V, R>, a: Data, b: Data, p: imap<K, V>, prefix: Bytes)
    requires PrimaryIs(im, a, p) && OthersUnchanged(prefix, a, b) && Apart(im.primary.prefix, prefix)
    ensures PrimaryIs(im, b, p)
  {
    hide Contents, Clean;
    CleanIsOwn(im.primary, a, b);
    OtherContentsUnchanged(im.primary, prefix, a, b);
  }

  /** Work on one index leaves all others, and the primary map, as they were. */
  lemma OneIndexChanged<K(!new), V, R(!new)>(
    im: IndexedMap<K, V, R>, a: Data, b: Data, p: imap<K, V>, q: imap<K, V>, i: nat)
    requires Arranged(im) && Halfway(im, a, p, q, i) && i < |im.indexes| && OthersUnchanged(im.indexes[i].prefix, a, b)
    ensures PrimaryIs(im, b, p)
    ensures forall j :: 0 <= j < i ==> Agrees(im.indexes[j], b, q)
    ensures forall j :: i < j < |im.indexes| ==> Agrees(im.indexes[j], b, p)
  {
    hide Agrees, PrimaryIs;
    PrimaryKept(im, a, b, p, im.indexes[i].prefix);
    forall j | 0 <= j < |im.indexes| && j != i
      ensures Agrees(im.indexes[j], b, if j < i then q else p)
    {
      AgreesIsOwn(im.indexes[j], a, b, if j < i then q else p);
    }
  }

  /** Every reference the value has can be kept. */
  ghost predicate AllUsable<K, V, R>(im: IndexedMap<K, V, R>, pk: K, value: V) {
    forall i :: 0 <= i < |im.indexes| ==> Usable(im.indexes[i], pk, value)
  }

  ghost predicate AllAcceptable<K(!new), V, R>(im: IndexedMap<K, V, R>, p: imap<K, V>, pk: K, value: V, i: nat) {
    forall j :: i <= j < |im.indexes| ==> Acceptable(im.indexes[j], p, pk, value)
  }

  /**
    * All indexes take the new value just when each finds it acceptable, and then all agree with the map to come. If
    * one refuses, the indexes still agree with the map as it was only if the very first refused a key that was new.
    */
  lemma {:induction false} ReferenceAllAgrees<K(!new), V, R(!new)>(
    im: IndexedMap<K, V, R>, data: Data, p: imap<K, V>, pk: K, value: V, i: nat)
    requires Arranged(im) && Halfway(im, data, p, p[pk := value], i)
    requires Whole(im.primary.kc, pk) && AllUsable(im, pk, value)
    ensures var (after, res) := ReferenceAll(im, data, pk, value, i);
            && PrimaryIs(im, after, p)
            && (res.Ok? <==> AllAcceptable(im, p, pk, value, i))
            && (res.Ok? ==> AllAgree(im, after, p[pk := value]))
            && (res.Err? ==> (AllAgree(im, after, p) <==>
                              i == 0 && pk !in p && !Acceptable(im.indexes[0], p, pk, value)))
    decreases |im.indexes| - i
  {
    hide Agrees, Acceptable, Usable, Reference, OthersUnchanged, Whole, Contents, Clean, GetIn;
    if i < |im.indexes| {
      var q, ix := p[pk := value], im.indexes[i];
      GetReads(im.primary, data, pk);
      ReferenceAgrees(ix, data, p, pk, value);
      var (next, res) := Reference(ix, data, pk, value, Lookup(p, pk));
      OneIndexChanged(im, data, next, p, q, i);
      if res.Ok? {
        ReferenceAllAgrees(im, next, p, pk, value, i + 1);
      } else if i > 0 && pk !in p {
        StrayEntry(im.indexes[0], next, p, pk, value);
      }
    }
  }

  lemma {:induction false} UnreferenceAllAgrees<K(!new), V, R(!new)>(
    im: IndexedMap<K, V, R>, data: Data, p: imap<K, V>, pk: K, i: nat)
    requires Arranged(im) && Halfway(im, data, p, p - {pk}, i) && Whole(im.primary.kc, pk) && pk in p
    ensures var (after, res) := UnreferenceAll(im, data, pk, i);
            PrimaryIs(im, after, p) && res.Ok? && AllAgree(im, after, p - {pk})
    decreases |im.indexes| - i
  {
    hide Agrees, Unreference, OthersUnchanged, Whole, Contents, Clean, GetIn;
    if i < |im.indexes| {
      GetReads(im.primary, data, pk);
      UnreferenceAgrees(im.indexes[i], data, p, pk);
      var next := Unreference(im.indexes[i], data, pk, Lookup(p, pk)).0;
      OneIndexChanged(im, data, next, p, p - {pk}, i);
      UnreferenceAllAgrees(im, next, p, pk, i + 1);
    }
  }

  // ---------------------------------------------------------------- operations

  datatype Op<K, V> = Set(key: K, value: V) | Remove(key: K)

  /** Indexes first, and the primary map last. */
  function Step<K, V, R>(im: IndexedMap<K, V, R>, data: Data, op: Op<K, V>): Done {
    match op
    case Set(pk, value) =>
      var r := ReferenceAll(im, data, pk, value, 0);
      if r.1.Err? then r else SetIn(im.primary, r.0, pk, value)
    case Remove(pk) =>
      var r := UnreferenceAll(im, data, pk, 0);
      if r.1.Err? then r else RemoveIn(im.primary, r.0, pk)
  }

  /** The same operation on a map without indexes. */
  ghost function PlainStep<K, V>(p: imap<K, V>, op: Op<K, V>): imap<K, V> {
    match op
    case Set(pk, value) => p[pk := value]
    case Remove(pk) => p - {pk}
  }

  /** The keys used can be stored; the value is stored as it is, if the codec takes it at all. */
  ghost predicate Storable<K, V, R>(im: IndexedMap<K, V, R>, op: Op<K, V>) {
    && Whole(im.primary.kc, op.key)
    && (op.Set? ==> AllUsable(im, op.key, op.value)
                    && (im.primary.vc.encode(op.value).Some? ==> Keeps(im.primary.vc, op.value)))
  }

  /** When an operation can succeed, told from the primary map and the codecs alone. */
  ghost predicate Allowed<K(!new), V, R>(im: IndexedMap<K, V, R>, p: imap<K, V>, op: Op<K, V>) {
    match op
    case Set(pk, value) => AllAcceptable(im, p, pk, value, 0) && im.primary.vc.encode(value).Some?
    case Remove(pk) => im.indexes == [] || pk in p
  }

  /**
    * When a refused operation does no harm. Removals never do any. A value that an index refuses does none if the very
    * first index refused it for a new key; a value that only the primary map refuses does none if there are no indexes
    * or it has all its references in common with the old value.
    */
  ghost predicate Harmless<K(!new), V, R>(im: IndexedMap<K, V, R>, p: imap<K, V>, op: Op<K, V>) {
    match op
    case Set(pk, value) =>
      if AllAcceptable(im, p, pk, value, 0) then im.indexes == [] || (pk in p && SameReferences(im, p, pk, value))
      else pk !in p && !Acceptable(im.indexes[0], p, pk, value)
    case Remove(_) => true
  }

  ghost predicate SameReferences<K, V, R>(im: IndexedMap<K, V, R>, p: imap<K, V>, pk: K, value: V)
    requires pk in p
  {
    forall i :: 0 <= i < |im.indexes| ==> im.indexes[i].refOf(pk, value) == im.indexes[i].refOf(pk, p[pk])
  }

  /** The primary map is written last, and touches no index. */
  lemma PrimaryLast<K(!new), V, R(!new)>(im: IndexedMap<K, V, R>, a: Data, b: Data, q: imap<K, V>)
    requires Arranged(im) && AllAgree(im, a, q) && Became(im.primary, a, b, q)
    ensures PrimaryIs(im, b, q) && Consistent(im, b)
  {
    hide Agrees, Clean, Contents;
    forall i | 0 <= i < |im.indexes|
      ensures Agrees(im.indexes[i], b, q)
    {
      AgreesIsOwn(im.indexes[i], a, b, q);
    }
  }

  /** The indexes have moved on to a value that the primary map refuses. */
  lemma PrimaryRefuses<K(!new), V, R(!new)>(im: IndexedMap<K, V, R>, a: Data, data: Data, p: imap<K, V>, pk: K, value: V)
    requires AllAgree(im, a, p) && AllAgree(im, data, p[pk := value])
    ensures AllAgree(im, data, p) <==> im.indexes == [] || (pk in p && SameReferences(im, p, pk, value))
  {
    hide Agrees;
    forall i | 0 <= i < |im.indexes|
      ensures Agrees(im.indexes[i], data, p) <==> pk in p && im.indexes[i].refOf(pk, value) == im.indexes[i].refOf(pk, p[pk])
    {
      if pk in p {
        AgreeingRefer(im.indexes[i], a, p);
        SameReference(im.indexes[i], data, p, pk, value);
      } else {
        StrayEntry(im.indexes[i], data, p, pk, value);
      }
    }
    assert im.indexes != [] ==> (AllAgree(im, data, p) ==> Agrees(im.indexes[0], data, p));
  }

  lemma AgreeingRefer<K(!new), V, R(!new)>(ix: Index<K, V, R>, data: Data, p: imap<K, V>)
    requires Agrees(ix, data, p)
    ensures AllRefer(ix, p)
  {
  }

  lemma SetIsConsistent<K(!new), V, R(!new)>(im: IndexedMap<K, V, R>, data: Data, pk: K, value: V)
    requires Arranged(im) && Consistent(im, data) && Storable(im, Set(pk, value))
    ensures var (after, res) := Step(im, data, Set(pk, value));
            var p := Contents(im.primary, data);
            && (res.Ok? <==> Allowed(im, p, Set(pk, value)))
            && PrimaryIs(im, after, if res.Ok? then p[pk := value] else p)
            && (Consistent(im, after) <==> res.Ok? || Harmless(im, p, Set(pk, value)))
  {
    hide Agrees, Acceptable, Usable, Whole, Contents, Clean, Keeps, Became;
    var p := Contents(im.primary, data);
    ReferenceAllAgrees(im, data, p, pk, value, 0);
    var (next, res) := ReferenceAll(im, data, pk, value, 0);
    if res.Ok? {
      if im.primary.vc.encode(value).Some? {
        SetBecomes(im.primary, next, pk, value);
        PrimaryLast(im, next, SetIn(im.primary, next, pk, value).0, p[pk := value]);
      } else {
        PrimaryRefuses(im, data, next, p, pk, value);
      }
    }
  }

  lemma RemoveIsConsistent<K(!new), V, R(!new)>(im: IndexedMap<K, V, R>, data: Data, pk: K)
    requires Arranged(im) && Consistent(im, data) && Whole(im.primary.kc, pk)
    ensures var (after, res) := Step(im, data, Remove(pk));
            var p := Contents(im.primary, data);
            && (res.Ok? <==> im.indexes == [] || pk in p)
            && PrimaryIs(im, after, if res.Ok? then p - {pk} else p)
            && Consistent(im, after)
  {
    hide Agrees, Whole, Contents, Clean, Became, GetIn;
    var p := Contents(im.primary, data);
    if pk in p || im.indexes == [] {
      if pk in p {
        UnreferenceAllAgrees(im, data, p, pk, 0);
      }
      var next := UnreferenceAll(im, data, pk, 0).0;
      RemoveBecomes(im.primary, next, pk);
      PrimaryLast(im, next, RemoveIn(im.primary, next, pk).0, p - {pk});
    } else {
      GetReads(im.primary, data, pk);
    }
  }

  /**
    * One operation with keys and references that can be stored: it succeeds just when it is allowed, does to the primary
    * map what it would do without indexes, and leaves every index the image of the primary map; refused, it leaves them
    * so just when it is harmless.
    */
  lemma StepIsConsistent<K(!new), V, R(!new)>(im: IndexedMap<K, V, R>, data: Data, op: Op<K, V>)
    requires Arranged(im) && Consistent(im, data) && Storable(im, op)
    ensures var (after, res) := Step(im, data, op);
            var p := Contents(im.primary, data);
            && (res.Ok? <==> Allowed(im, p, op))
            && Contents(im.primary, after) == (if res.Ok? then PlainStep(p, op) else p)
            && (Consistent(im, after) <==> res.Ok? || Harmless(im, p, op))
  {
    hide Consistent, AllAcceptable, Acceptable, Contents, Whole, Step;
    match op
    case Set(pk, value) => SetIsConsistent(im, data, pk, value);
    case Remove(pk) => RemoveIsConsistent(im, data, pk);
  }

  function Run<K, V, R>(im: IndexedMap<K, V, R>, data: Data, ops: seq<Op<K, V>>): Done
    decreases |ops|
  {
    if ops == [] then (data, Ok(()))
    else
      var r := Step(im, data, ops[0]);
      if r.1.Err? then r else Run(im, r.0, ops[1..])
  }

  ghost function PlainRun<K, V>(p: imap<K, V>, ops: seq<Op<K, V>>): imap<K, V>
    decreases |ops|
  {
    if ops == [] then p else PlainRun(PlainStep(p, ops[0]), ops[1..])
  }

  /**
    * Over every run of successful operations, what each index has stored is the image of what the primary map has
    * stored, and that is what it would be without indexes.
    */
  lemma {:induction false} RunIsConsistent<K(!new), V, R(!new)>(im: IndexedMap<K, V, R>, data: Data, ops: seq<Op<K, V>>)
    requires Arranged(im) && Consistent(im, data) && (forall op :: op in ops ==> Storable(im, op)) && Run(im, data, ops).1.Ok?
    ensures Consistent(im, Run(im, data, ops).0)
    ensures Contents(im.primary, Run(im, data, ops).0) == PlainRun(Contents(im.primary, data), ops)
    decreases |ops|
  {
    hide Consistent, Allowed, Harmless, Storable, Arranged, Contents, Step;
    if ops != [] {
      StepIsConsistent(im, data, ops[0]);
      RunIsConsistent(im, Step(im, data, ops[0]).0, ops[1..]);
    }
  }

  // ---------------------------------------------------------------- references that cannot be stored

  /** What is at the place of the reference is what was written there for it. */
  ghost predicate Written<K, V, R>(ix: Index<K, V, R>, data: Data, pk: K, r: R) {
    if ix.unique then
      && KeyOf(Owners(ix), r).Some? && KeyOf(Owners(ix), r).value in data
      && KeyToValueCodec(ix.pc).encode(pk) == Some(data[KeyOf(Owners(ix), r).value])
    else KeyOf(Pairs(ix), Join(r, pk)).Some? && KeyOf(Pairs(ix), Join(r, pk)).value in data
  }

  lemma AddWrites<K, V, R>(ix: Index<K, V, R>, data: Data, pk: K, value: V, was: Result<V, Error>)
    requires Reference(ix, data, pk, value, was).1.Ok?
    ensures ix.refOf(pk, value).Some? && Written(ix, Reference(ix, data, pk, value, was).0, pk, ix.refOf(pk, value).value)
  {
  }

  /** Work on one index stays under its prefix, whatever comes of it. */
  lemma ReferenceStaysInside<K(!new), V, R(!new)>(ix: Index<K, V, R>, data: Data, pk: K, value: V, was: Result<V, Error>)
    ensures OthersUnchanged(ix.prefix, data, Reference(ix, data, pk, value, was).0)
  {
    hide OthersUnchanged;
    NothingChanged(ix.prefix, data);
    var next := if was.Ok? then Drop(ix, data, pk, was.value).0 else data;
    if was.Ok? {
      DropStaysInside(ix, data, pk, was.value);
    }
    AddStaysInside(ix, next, pk, value);
    OthersTwice(ix.prefix, data, next, Add(ix, next, pk, value).0);
  }

  lemma DropStaysInside<K(!new), V, R(!new)>(ix: Index<K, V, R>, data: Data, pk: K, was: V)
    ensures OthersUnchanged(ix.prefix, data, Drop(ix, data, pk, was).0)
  {
    hide OthersUnchanged;
    NothingChanged(ix.prefix, data);
    if ix.refOf(pk, was).Some? {
      var r := ix.refOf(pk, was).value;
      if ix.unique {
        StaysInside(Owners(ix), data, r, pk);
      } else {
        StaysInside(Pairs(ix), data, Join(r, pk), ());
      }
    }
  }

  lemma AddStaysInside<K(!new), V, R(!new)>(ix: Index<K, V, R>, data: Data, pk: K, value: V)
    ensures OthersUnchanged(ix.prefix, data, Add(ix, data, pk, value).0)
  {
    hide OthersUnchanged;
    NothingChanged(ix.prefix, data);
    if ix.refOf(pk, value).Some? {
      var r := ix.refOf(pk, value).value;
      if ix.unique {
        StaysInside(Owners(ix), data, r, pk);
      } else {
        StaysInside(Pairs(ix), data, Join(r, pk), ());
      }
    }
  }

  lemma WrittenIsOwn<K, V, R>(ix: Index<K, V, R>, a: Data, b: Data, pk: K, r: R)
    requires Own(ix.prefix, a) == Own(ix.prefix, b) && Written(ix, a, pk, r)
    ensures Written(ix, b, pk, r)
  {
    KeyBytes(ix.prefix, ix.rc, r);
    KeyBytes(ix.prefix, PairKeyCodec(ix.rc, ix.pc), Join(r, pk));
    var k := if ix.unique then KeyOf(Owners(ix), r).value else KeyOf(Pairs(ix), Join(r, pk)).value;
    assert k in Own(ix.prefix, a) && Own(ix.prefix, a)[k] == Own(ix.prefix, b)[k];
  }

  /** An index that agrees can keep what was written to it. */
  lemma AgreeingFits<K(!new), V, R(!new)>(ix: Index<K, V, R>, data: Data, p: imap<K, V>, pk: K, r: R)
    requires Agrees(ix, data, p) && Refers(ix, p, pk, r) && Written(ix, data, pk, r)
    ensures Fits(ix, r, pk)
  {
    if ix.unique {
      OwnerIsWhole(ix, data, p, pk, r);
      assert Owned(Contents(Owners(ix), data), r, pk);
    } else {
      StoredPairIsWhole(ix, data, p, pk, r);
    }
  }

  lemma {:induction false} AllWritten<K(!new), V, R(!new)>(im: IndexedMap<K, V, R>, data: Data, pk: K, value: V, i: nat)
    requires Arranged(im) && i <= |im.indexes| && ReferenceAll(im, data, pk, value, i).1.Ok?
    ensures var after := ReferenceAll(im, data, pk, value, i).0;
            && (forall j :: i <= j < |im.indexes| ==>
                  im.indexes[j].refOf(pk, value).Some? && Written(im.indexes[j], after, pk, im.indexes[j].refOf(pk, value).value))
            && (forall q :: (forall j :: i <= j < |im.indexes| ==> Apart(q, im.indexes[j].prefix)) ==> Own(q, after) == Own(q, data))
    decreases |im.indexes| - i
  {
    hide Written, Reference;
    if i < |im.indexes| {
      var ix, was := im.indexes[i], GetIn(im.primary, data, pk);
      var next := Reference(ix, data, pk, value, was).0;
      AddWrites(ix, data, pk, value, was);
      ReferenceStaysInside(ix, data, pk, value, was);
      AllWritten(im, next, pk, value, i + 1);
      var after := ReferenceAll(im, data, pk, value, i).0;
      assert Own(ix.prefix, after) == Own(ix.prefix, next);
      WrittenIsOwn(ix, next, after, pk, ix.refOf(pk, value).value);
    }
  }

  /**
    * A successful update leaves every index the image of the primary map exactly if all of the value's references can be
    * stored: what an index writes for them must come back.
    */
  lemma SuccessIsConsistentIff<K(!new), V, R(!new)>(im: IndexedMap<K, V, R>, data: Data, pk: K, value: V)
    requires Arranged(im) && Consistent(im, data) && Whole(im.primary.kc, pk) && Keeps(im.primary.vc, value)
    requires Step(im, data, Set(pk, value)).1.Ok?
    ensures Consistent(im, Step(im, data, Set(pk, value)).0) <==> AllUsable(im, pk, value)
  {
    hide Agrees, Fits, Whole, Clean, Keeps, Written, ReferenceAll;
    var (next, res) := ReferenceAll(im, data, pk, value, 0);
    var after := Step(im, data, Set(pk, value)).0;
    if AllUsable(im, pk, value) {
      SetIsConsistent(im, data, pk, value);
    } else if Consistent(im, after) {
      AllWritten(im, data, pk, value, 0);
      var p := Contents(im.primary, after);
      LastSetIsRead(im, next, pk, value);
      KeyBytes(im.primary.prefix, im.primary.kc, pk);
      StaysInside(im.primary, next, pk, value);
      forall i | 0 <= i < |im.indexes|
        ensures Usable(im.indexes[i], pk, value)
      {
        var ix := im.indexes[i];
        var r := ix.refOf(pk, value).value;
        WrittenIsOwn(ix, next, after, pk, r);
        AgreeingFits(ix, after, p, pk, r);
      }
    }
  }

  lemma LastSetIsRead<K(!new), V, R(!new)>(im: IndexedMap<K, V, R>, data: Data, pk: K, value: V)
    requires Whole(im.primary.kc, pk) && Keeps(im.primary.vc, value)
    ensures var after := SetIn(im.primary, data, pk, value).0;
            pk in Contents(im.primary, after) && Contents(im.primary, after)[pk] == value
  {
    SetContents(im.primary, data, pk, value);
  }

  /** With nothing stored, every index is the image of the map. */
  lemma EmptyIsConsistent<K(!new), V, R(!new)>(im: IndexedMap<K, V, R>)
    ensures Consistent(im, map[])
  {
    assert Contents(im.primary, map[]) == imap[];
    forall i | 0 <= i < |im.indexes|
      ensures Agrees(im.indexes[i], map[], imap[])
    {
      var ix := im.indexes[i];
      assert Contents(Owners(ix), map[]) == imap[] && Contents(Pairs(ix), map[]) == imap[];
    }
  }

  // ---------------------------------------------------------------- examples

  const RawValue: ValueCodec<Bytes> := ValueCodec((v: Bytes) => Some(v), (b: Bytes) => Some(b))

  /** Integers to strings, found again by the string. */
  function ByString(unique: bool): IndexedMap<nat, Bytes, Bytes> {
    IndexedMap(Map([1], UintKey(8), RawValue), [Index(unique, [2], StringKey, UintKey(8), (k: nat, v: Bytes) => Some(v))])
  }

  /**
    * A string with a multi-byte rune as a reference key: setting it succeeds, and the index is no longer the image of the
    * map. Another string has the same place in the index.
    */
  lemma StringReferenceLost()
    ensures var im := ByString(false);
            var (after, res) := Step(im, map[], Set(1, [0xC3, 0xA9]));
            && Arranged(im) && Consistent(im, map[])
            && res.Ok? && !Consistent(im, after)
            && KeyOf(Pairs(im.indexes[0]), Join([0xC3, 0xA9], 1)) == KeyOf(Pairs(im.indexes[0]), Join([0xC3, 0xA8], 1))
  {
    hide Step, Consistent, AllUsable, Whole, Keeps, Plain, KeyOf;
    var im, s: Bytes := ByString(false), [0xC3, 0xA9];
    EmptyIsConsistent(im);
    ByStringArranged(false);
    RuneReference(im, s);
    SuccessIsConsistentIff(im, map[], 1, s);
  }

  /** Setting it succeeds, but the index cannot keep the reference. */
  lemma RuneReference(im: IndexedMap<nat, Bytes, Bytes>, s: Bytes)
    requires im == ByString(false) && s == [0xC3, 0xA9]
    ensures Whole(im.primary.kc, 1) && Keeps(im.primary.vc, s) && !AllUsable(im, 1, s)
    ensures Step(im, map[], Set(1, s)).1.Ok?
    ensures KeyOf(Pairs(im.indexes[0]), Join(s, 1)) == KeyOf(Pairs(im.indexes[0]), Join([0xC3, 0xA8], 1))
  {
    hide Whole;
    var ix := im.indexes[0];
    SmallKeys();
    StringPairsCollide(8, 1);
    assert KeyOf(Pairs(ix), Join(s, 1)).Some?;
    UintIsStorable(8, 1);
    KeyBytes([1], UintKey(8), 1);
    var next := ReferenceAll(im, map[], 1, s, 0);
    assert next == ReferenceAll(im, next.0, 1, s, 1) && next.1.Ok?;
    assert RuneWidth(s, 0) == 2 && !Plain(s);
    StringPairWholeIff(s, 8, 1);
    assert !Usable(ix, 1, s);
  }

  lemma StringsAreStorable(im: IndexedMap<nat, Bytes, Bytes>, k: nat, v: Bytes)
    requires im == ByString(true) && k < Pow256(8)
    ensures Storable(im, Set(k, v)) && im.primary.vc.encode(v).Some?
  {
    UintIsStorable(8, k);
    RawIsWhole(v);
    FitsByParts(im.indexes[0], v, k);
  }

  /** A new owner is accepted, and the map has what it had and the new value. */
  lemma NewString(im: IndexedMap<nat, Bytes, Bytes>, data: Data, k: nat, v: Bytes)
    requires im == ByString(true) && k < Pow256(8) && Consistent(im, data)
    requires forall j :: !Refers(im.indexes[0], Contents(im.primary, data), j, v)
    ensures var (after, res) := Step(im, data, Set(k, v));
            res.Ok? && Consistent(im, after) && Contents(im.primary, after) == Contents(im.primary, data)[k := v]
  {
    hide Step, Consistent, Storable, Contents;
    StringsAreStorable(im, k, v);
    ByStringArranged(true);
    StepIsConsistent(im, data, Set(k, v));
  }

  /** A refused update of an existing value has already lost the old value's reference. */
  lemma RefusedSetLosesReference()
    ensures var im := ByString(true);
            var (data, res) := Run(im, map[], [Set(1, [97]), Set(2, [98])]);
            && res.Ok? && Arranged(im) && Consistent(im, data)
            && Step(im, data, Set(1, [98])).1.Err? && !Consistent(im, Step(im, data, Set(1, [98])).0)
  {
    hide Step, Consistent, Storable, Contents, Pow256;
    var im := ByString(true);
    var ix, a: Bytes, b: Bytes := im.indexes[0], [97], [98];
    EmptyIsConsistent(im);
    SmallKeys();
    NothingInEmpty(im.primary);
    NewString(im, map[], 1, a);
    var d1 := Step(im, map[], Set(1, a)).0;
    NewString(im, d1, 2, b);
    var d2 := Step(im, d1, Set(2, b)).0;
    var ops := [Set(1, a), Set(2, b)];
    assert ops[1..] == [Set(2, b)] && ops[1..][1..] == [];
    assert Run(im, map[], ops) == Run(im, d1, ops[1..]) == Run(im, d2, []);
    assert Refers(ix, Contents(im.primary, d2), 2, b);
    StringsAreStorable(im, 1, b);
    ByStringArranged(true);
    StepIsConsistent(im, d2, Set(1, b));
  }

  lemma ByStringArranged(unique: bool)
    ensures Arranged(ByString(unique))
  {
    var p: Bytes, q: Bytes := [1], [2];
    assert p[0] != q[0] && Apart(q, p);
  }

  lemma SmallKeys()
    ensures 2 < Pow256(8)
  {
  }

  lemma NothingInEmpty<K(!new), V>(m: Map<K, V>)
    ensures Contents(m, map[]) == imap[]
  {
  }

  // ---------------------------------------------------------------- looking up

  /** The pairs found under a reference key are those of the primary keys whose values have it. */
  lemma MatchExactFinds<K(!new), V, R(!new)>(im: IndexedMap<K, V, R>, i: nat, data: Data, r: R, k: K)
    requires Consistent(im, data) && i < |im.indexes| && !im.indexes[i].unique
    requires Partial(im.indexes[i].rc, r) && Whole(im.indexes[i].pc, k)
    ensures var m := Pairs(im.indexes[i]);
            var found := Iterate(m, data, NewPrefixedPairRange<R, K>(r));
            KeyOf(m, Join(r, k)).Some?
            && ((found.Ok? && KeyOf(m, Join(r, k)).value in found.value) <==>
                Refers(im.indexes[i], Contents(im.primary, data), k, r))
  {
    var ix := im.indexes[i];
    hide Iterate, Contents, Clean;
    PairIsWhole(ix.rc, ix.pc, r, k);
    PrefixedPairsFound(Pairs(ix), data, ix.rc, ix.pc, r, r, k);
    CleanHolds(Pairs(ix), data, Join(r, k));
  }

  // ---------------------------------------------------------------- the code

  method DropFrom<K(!new, ==), V, R(!new)>(ix: Index<K, V, R>, store: KVStore, pk: K, was: V) returns (res: Result<(), Error>)
    modifies store
    ensures (store.data, res) == Drop(ix, old(store.data), pk, was)
  {
    var r := ix.refOf(pk, was);
    if r.None? {
      return Err(NoReference);
    }
    if ix.unique {
      res := Maps.Remove(Owners(ix), store, r.value);
    } else {
      res := Maps.Remove(Pairs(ix), store, Join(r.value, pk));
    }
  }

  method AddReference<K(!new, ==), V(==), R(!new)>(ix: Index<K, V, R>, store: KVStore, pk: K, value: V, was: Result<V, Error>)
    returns (res: Result<(), Error>)
    modifies store
    ensures (store.data, res) == Reference(ix, old(store.data), pk, value, was)
  {
    if was.Ok? {
      res := DropFrom(ix, store, pk, was.value);
      if res.Err? {
        return;
      }
    } else if was != Err(NotFound) {
      return Err(was.error);
    }
    var r := ix.refOf(pk, value);
    if r.None? {
      return Err(NoReference);
    }
    if ix.unique {
      var has := Maps.Has(Owners(ix), store, r.value);
      if has.Err? {
        return Err(has.error);
      }
      if has.value {
        return Err(Conflict);
      }
      res := Maps.Set(Owners(ix), store, r.value, pk);
    } else {
      res := Maps.Set(Pairs(ix), store, Join(r.value, pk), ());
    }
  }

  method SetIndexed<K(!new, ==), V(==), R(!new)>(im: IndexedMap<K, V, R>, store: KVStore, pk: K, value: V)
    returns (res: Result<(), Error>)
    modifies store
    ensures (store.data, res) == Step(im, old(store.data), Set(pk, value))
  {
    for i := 0 to |im.indexes|
      invariant ReferenceAll(im, store.data, pk, value, i) == ReferenceAll(im, old(store.data), pk, value, 0)
    {
      var was := Maps.Get(im.primary, store, pk);
      res := AddReference(im.indexes[i], store, pk, value, was);
      if res.Err? {
        return;
      }
    }
    res := Maps.Set(im.primary, store, pk, value);
  }

  method RemoveIndexed<K(!new, ==), V, R(!new)>(im: IndexedMap<K, V, R>, store: KVStore, pk: K)
    returns (res: Result<(), Error>)
    modifies store
    ensures (store.data, res) == Step(im, old(store.data), Remove(pk))
  {
    for i := 0 to |im.indexes|
      invariant UnreferenceAll(im, store.data, pk, i) == UnreferenceAll(im, old(store.data), pk, 0)
    {
      var was := Maps.Get(im.primary, store, pk);
      if was.Err? {
        return Err(was.error);
      }
      res := DropFrom(im.indexes[i], store, pk, was.value);
      if res.Err? {
        return;
      }
    }
    res := Maps.Remove(im.primary, store, pk);
  }
}
