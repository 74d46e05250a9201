/** The in-memory stores, as objects. */
module MemoryStores {
  import opened Prelude
  import opened SemVer
  import opened Keys
  import opened Stores
  import opened Slices

  datatype StoreError = NotFound | Exists | VersionRequired

  /** A table of records with its staged deletions. */
  class MemoryStore<!K(!new), !R(!new)> {
    const sc: Schema<K, R>
    var records: seq<R>
    var deletedRemoteKeys: seq<string>

    ghost function Value(): Store<R>
      reads this
    {
      Store(records, deletedRemoteKeys)
    }

    /** Distinct complete keys, and duplicate-free tombstones printed from complete keys. */
    ghost predicate Valid()
      reads this
    {
      Lawful(sc) && ValidStore(sc, Value())
    }

    constructor (sc: Schema<K, R>)
      requires Lawful(sc)
      ensures Valid() && this.sc == sc && Value() == Store([], [])
    {
      this.sc, records, deletedRemoteKeys := sc, [], [];
    }

    /** The scan every operation starts with. */
    method FindIndex(key: K) returns (idx: int)
      ensures idx == if IndexOf(sc, records, key) < |records| then IndexOf(sc, records, key) else -1
    {
      for i := 0 to |records|
        invariant IndexOf(sc, records, key) == i + IndexOf(sc, records[i..], key)
      {
        if sc.same(sc.key(records[i]), key) { return i; }
        assert records[i..][1..] == records[i + 1..];
      }
      return -1;
    }

    method Get(key: K) returns (r: Result<R, StoreError>)
      requires Valid()
      ensures r == if key in Live(sc, records) then Ok(Live(sc, records)[key]) else Err(NotFound)
    {
      var idx := FindIndex(key);
      IndexFindsLive(sc, records, key);
      r := if idx == -1 then Err(NotFound) else Ok(records[idx]);
    }

    /** A copy of all records, in order. */
    method Fetch() returns (copy: seq<R>)
      ensures copy == records
    {
      copy := [];
      for i := 0 to |records|
        invariant copy == records[..i]
      {
        copy := copy + [records[i]];
      }
    }

    /** Drops a printed key from the staged deletions, shifting those after it. */
    method CancelDelete(deletedKey: string)
      modifies this`deletedRemoteKeys
      ensures deletedRemoteKeys == RemoveFirst(old(deletedRemoteKeys), deletedKey)
    {
      var keys, n := deletedRemoteKeys, |deletedRemoteKeys|;
      var cells := new string[n](i requires 0 <= i < n => keys[i]);
      assert cells[..n] == keys;
      var m := DeleteFromSlice(cells, n, deletedKey, "");
      deletedRemoteKeys := cells[..m];
    }

    /** Refuses a key that is there, then a key without version; otherwise appends and cancels a staged deletion. */
    method Add(record: R) returns (err: Option<StoreError>)
      requires Valid()
      modifies this
      ensures Valid()
      ensures err == if sc.key(record) in old(Live(sc, records)) then Some(Exists)
                     else if !sc.complete(sc.key(record)) then Some(VersionRequired) else None
      ensures err.Some? ==> Value() == old(Value())
      ensures err.None? ==> Value() == Upsert(sc, old(Value()), record) && records == old(records) + [record]
      ensures err.None? ==>
                Abstract(sc, Value()) == State(old(Live(sc, records))[sc.key(record) := record],
                                               old(Dead(sc, deletedRemoteKeys)) - {sc.key(record)})
    {
      var idx := FindIndex(sc.key(record));
      IndexFindsLive(sc, records, sc.key(record));
      if idx != -1 { return Some(Exists); }
      if !sc.complete(sc.key(record)) { return Some(VersionRequired); }
      UpsertRefines(sc, Value(), record);
      CancelDelete(sc.print_(sc.key(record)));
      records := records + [record];
      return None;
    }

    /** Inserts, or replaces in place; cancels a staged deletion. */
    method UpsertRecord(record: R) returns (err: Option<StoreError>)
      requires Valid()
      modifies this
      ensures Valid()
      ensures err == if sc.complete(sc.key(record)) then None else Some(VersionRequired)
      ensures err.Some? ==> Value() == old(Value())
      ensures err.None? ==> Value() == Upsert(sc, old(Value()), record)
      ensures err.None? ==>
                Abstract(sc, Value()) == State(old(Live(sc, records))[sc.key(record) := record],
                                               old(Dead(sc, deletedRemoteKeys)) - {sc.key(record)})
    {
      if !sc.complete(sc.key(record)) { return Some(VersionRequired); }
      UpsertRefines(sc, Value(), record);
      CancelDelete(sc.print_(sc.key(record)));
      var idx := FindIndex(sc.key(record));
      if idx != -1 {
        records := records[idx := record];
        return None;
      }
      records := records + [record];
      return None;
    }

    /** Replaces a record that is there; a missing key is reported before a missing version. */
    method Update(record: R) returns (err: Option<StoreError>)
      requires Valid()
      modifies this
      ensures Valid()
      ensures err == if sc.key(record) !in old(Live(sc, records)) then Some(NotFound)
                     else if !sc.complete(sc.key(record)) then Some(VersionRequired) else None
      ensures err.Some? ==> Value() == old(Value())
      ensures err.None? ==> Value() == Upsert(sc, old(Value()), record) && |records| == |old(records)|
      ensures err.None? ==>
                Abstract(sc, Value()) == State(old(Live(sc, records))[sc.key(record) := record],
                                               old(Dead(sc, deletedRemoteKeys)) - {sc.key(record)})
    {
      var idx := FindIndex(sc.key(record));
      IndexFindsLive(sc, records, sc.key(record));
      if idx == -1 { return Some(NotFound); }
      if !sc.complete(sc.key(record)) { return Some(VersionRequired); }
      UpsertRefines(sc, Value(), record);
      CancelDelete(sc.print_(sc.key(record)));
      records := records[idx := record];
      return None;
    }

    /** Removes the record with a key; tombstones are untouched. */
    method Delete(key: K) returns (err: Option<StoreError>)
      requires Valid()
      modifies this
      ensures Valid()
      ensures err == if key in old(Live(sc, records)) then None else Some(NotFound)
      ensures records == DropRecord(sc, old(records), key) && deletedRemoteKeys == old(deletedRemoteKeys)
      ensures Live(sc, records) == old(Live(sc, records)) - {key}
    {
      DropRefines(sc, records, key);
      DropKeepsComplete(sc, records, key);
      IndexFindsLive(sc, records, key);
      var idx := FindIndex(key);
      if idx == -1 { return Some(NotFound); }
      records := records[..idx] + records[idx + 1..];
      return None;
    }

    /** Stages a deletion once; live records are untouched. A key without version cannot be printed. */
    method RemoteDeleteKey(key: K)
      requires Valid() && sc.complete(key)
      modifies this
      ensures Valid() && Value() == RemoteDelete(sc, old(Value()), key)
      ensures deletedRemoteKeys ==
                old(deletedRemoteKeys) + if sc.print_(key) in old(deletedRemoteKeys) then [] else [sc.print_(key)]
    {
      RemoteDeleteRefines(sc, Value(), key);
      var deletedKey := sc.print_(key);
      if deletedKey !in deletedRemoteKeys {
        deletedRemoteKeys := deletedRemoteKeys + [deletedKey];
      }
    }

    /** Upserts a list of complete records, so that no write is refused. */
    method UpsertEach(fetched: seq<R>)
      requires Valid() && Complete(sc, fetched)
      modifies this
      ensures Valid() && Value() == UpsertAll(sc, old(Value()), fetched)
    {
      for i := 0 to |fetched|
        invariant Valid() && Value() == UpsertAll(sc, old(Value()), fetched[..i])
      {
        var upsertErr := UpsertRecord(fetched[i]);
        assert upsertErr.None? && fetched[..i + 1][..i] == fetched[..i];
      }
      assert fetched[..|fetched|] == fetched;
    }

    /** Stages each key for remote deletion and drops its record if there is one. */
    method StageEach(dead: seq<string>) returns (err: Option<KeyError>)
      requires Valid()
      modifies this
      ensures Valid() && (Value(), err) == StageAll(sc, old(Value()), dead)
    {
      for i := 0 to |dead|
        invariant Valid() && (Value(), None) == StageAll(sc, old(Value()), dead[..i])
      {
        assert dead[..i + 1][..i] == dead[..i];
        match sc.parse(dead[i])
        case Err(e) =>
          StageAllStops(sc, old(Value()), dead, i);
          return Some(e);
        case Ok(key) =>
          RemoteDeleteKey(key);
          var deleteErr := Delete(key);
      }
      assert dead[..|dead|] == dead;
      return None;
    }

    /** This table's part of a merge: upsert the source's records, then propagate its staged deletions. */
    method MergeFrom(src: MemoryStore<K, R>) returns (err: Option<KeyError>)
      requires Valid() && src.Valid() && src.sc == sc
      modifies this
      ensures Valid()
      ensures (Value(), err) == if src == this then MergeWithSelf(sc, old(Value()))
                                else MergeStores(sc, old(Value()), src.Value())
    {
      var fetched := src.Fetch();
      UpsertEach(fetched);
      err := StageEach(src.deletedRemoteKeys);
    }
  }

  /** A key that does not parse ends the staging, whatever comes after it. */
  lemma {:induction false} StageAllStops<K(!new), R(!new)>(sc: Schema<K, R>, s: Store<R>, dead: seq<string>, i: nat)
    requires i < |dead|
    requires sc.parse(dead[i]).Err? && StageAll(sc, s, dead[..i]).1.None?
    ensures StageAll(sc, s, dead) == (StageAll(sc, s, dead[..i]).0, Some(sc.parse(dead[i]).error))
    decreases |dead|
  {
    var init := dead[..|dead| - 1];
    if i < |dead| - 1 {
      assert init[..i] == dead[..i];
      StageAllStops(sc, s, init, i);
    }
  }

  // ----- The three tables -----

  datatype AnyAddressRef = AddressRef(
    address: string, chain: Uint64, labels: set<string>, qualifier: string, typ: string, version: Option<Version>)

  /** The records the stores are modelled on: those whose version has no build metadata. */
  type AddressRef = r: AnyAddressRef | r.version.Some? ==> r.version.value.metadata == ""
    witness AddressRef("", 0, {}, "", "", None)

  /** Metadata is kept as an uninterpreted value. */
  datatype ContractMetadata<+M> = ContractMetadata(address: string, chain: Uint64, metadata: M)
  datatype ChainMetadata<+M> = ChainMetadata(chain: Uint64, metadata: M)

  function PlainVersionOf(r: AddressRef): Option<PlainVersion> {
    if r.version.Some? then Some(r.version.value) else None
  }

  function AddressRefs(t: VersionText): Schema<AddressRefKey, AddressRef> {
    Schema(
      (r: AddressRef) => AddressRefKey(r.chain, r.typ, PlainVersionOf(r), r.qualifier),
      (a, b) => AddressRefKeysEqual(a, b),
      (k: AddressRefKey) => k.version.Some?,
      (k: AddressRefKey) => if k.version.Some? then PrintAddressRefKey(t, k) else "",
      s => ParseAddressRefKey(t, s))
  }

  function ContractMetadataTable<M>(): Schema<ContractMetadataKey, ContractMetadata<M>> {
    Schema(
      (r: ContractMetadata<M>) => ContractMetadataKey(r.chain, r.address),
      (a, b) => a == b,
      (k: ContractMetadataKey) => true,
      (k: ContractMetadataKey) => PrintContractMetadataKey(k),
      s => ParseContractMetadataKey(s))
  }

  function ChainMetadataTable<M>(): Schema<ChainMetadataKey, ChainMetadata<M>> {
    Schema(
      (r: ChainMetadata<M>) => ChainMetadataKey(r.chain),
      (a, b) => a == b,
      (k: ChainMetadataKey) => true,
      (k: ChainMetadataKey) => PrintChainMetadataKey(k),
      s => ParseChainMetadataKey(s))
  }

  lemma AddressRefsLawful(t: VersionText)
    requires t.Lawful()
    ensures Lawful(AddressRefs(t))
  {
    var sc := AddressRefs(t);
    forall a, b ensures sc.same(a, b) <==> a == b { KeysEqualIsEquality(a, b); }
    forall k | sc.complete(k) ensures sc.parse(sc.print_(k)) == Ok(k) || sc.parse(sc.print_(k)).Err? {
      AddressRefKeyRoundTrip(t, k);
    }
  }

  lemma ContractMetadataTableLawful<M(!new)>()
    ensures Lawful(ContractMetadataTable<M>())
  {
    var sc := ContractMetadataTable<M>();
    forall k ensures sc.parse(sc.print_(k)) == Ok(k) || sc.parse(sc.print_(k)).Err? {
      ContractMetadataKeyRoundTrip(k);
    }
  }

  lemma ChainMetadataTableLawful<M(!new)>()
    ensures Lawful(ChainMetadataTable<M>())
    ensures var sc := ChainMetadataTable<M>(); forall k {:trigger sc.print_(k)} :: sc.parse(sc.print_(k)) == Ok(k)
  {
    forall k ensures ParseChainMetadataKey(PrintChainMetadataKey(k)) == Ok(k) { ChainMetadataKeyRoundTrip(k); }
  }
}
