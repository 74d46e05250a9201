/** The data store of three tables and the environment record: merging, pushing to a catalog, loading from one. */
module DataStores {
  import opened Prelude
  import opened Keys
  import opened Stores
  import opened Catalog
  import opened MemoryStores

  datatype DataValue<+M> = DataValue(
    addresses: Store<AddressRef>,
    chains: Store<ChainMetadata<M>>,
    contracts: Store<ContractMetadata<M>>,
    env: Option<M>)

  datatype CatalogValue<+M> = CatalogValue(
    addresses: map<AddressRefKey, AddressRef>,
    chains: map<ChainMetadataKey, ChainMetadata<M>>,
    contracts: map<ContractMetadataKey, ContractMetadata<M>>,
    env: Option<M>)

  ghost predicate ValidData<M(!new)>(t: VersionText, d: DataValue<M>) {
    && ValidStore(AddressRefs(t), d.addresses)
    && ValidStore(ChainMetadataTable<M>(), d.chains)
    && ValidStore(ContractMetadataTable<M>(), d.contracts)
  }

  function Override<M>(old_: Option<M>, new_: Option<M>): Option<M> {
    if new_.Some? then new_ else old_
  }

  /** What merging one table gives: the table, and the key that did not parse if there was one. */
  type TableMerge<R> = (Store<R>, Option<KeyError>)

  /** Tables in order; the first staged key that does not parse stops the merge where it is. */
  function InOrder<M>(d: DataValue<M>, addresses: TableMerge<AddressRef>, chains: TableMerge<ChainMetadata<M>>,
                      contracts: TableMerge<ContractMetadata<M>>, env: Option<M>): (DataValue<M>, Option<KeyError>)
  {
    if addresses.1.Some? then (d.(addresses := addresses.0), addresses.1)
    else if chains.1.Some? then (d.(addresses := addresses.0, chains := chains.0), chains.1)
    else if contracts.1.Some? then
      (d.(addresses := addresses.0, chains := chains.0, contracts := contracts.0), contracts.1)
    else (DataValue(addresses.0, chains.0, contracts.0, env), None)
  }

  function MergeData<M>(t: VersionText, d: DataValue<M>, s: DataValue<M>): (DataValue<M>, Option<KeyError>) {
    InOrder(d, MergeStores(AddressRefs(t), d.addresses, s.addresses),
            MergeStores(ChainMetadataTable<M>(), d.chains, s.chains),
            MergeStores(ContractMetadataTable<M>(), d.contracts, s.contracts), Override(d.env, s.env))
  }

  /** What merging a data store into itself does to it. */
  function MergeDataWithSelf<M>(t: VersionText, d: DataValue<M>): (DataValue<M>, Option<KeyError>) {
    InOrder(d, MergeWithSelf(AddressRefs(t), d.addresses), MergeWithSelf(ChainMetadataTable<M>(), d.chains),
            MergeWithSelf(ContractMetadataTable<M>(), d.contracts), d.env)
  }

  /** All tables and the environment, or nothing. */
  function PushData<M>(
      t: VersionText, policy: DeletePolicy, c: CatalogValue<M>, s: DataValue<M>): Result<CatalogValue<M>, PushError>
  {
    match PushTable(AddressRefs(t), policy, c.addresses, s.addresses)
    case Err(e) => Err(e)
    case Ok(addresses) =>
      match PushTable(ChainMetadataTable<M>(), policy, c.chains, s.chains)
      case Err(e) => Err(e)
      case Ok(chains) =>
        match PushTable(ContractMetadataTable<M>(), policy, c.contracts, s.contracts)
        case Err(e) => Err(e)
        case Ok(contracts) => Ok(CatalogValue(addresses, chains, contracts, Override(c.env, s.env)))
  }

  lemma TablesLawful<M(!new)>(t: VersionText)
    requires t.Lawful()
    ensures Lawful(AddressRefs(t)) && Lawful(ChainMetadataTable<M>()) && Lawful(ContractMetadataTable<M>())
  {
    AddressRefsLawful(t);
    ChainMetadataTableLawful<M>();
    ContractMetadataTableLawful<M>();
  }

  ghost predicate AllStagedParse<M(!new)>(t: VersionText, s: DataValue<M>) {
    && AllParse(AddressRefs(t), s.addresses.dead)
    && AllParse(ChainMetadataTable<M>(), s.chains.dead)
    && AllParse(ContractMetadataTable<M>(), s.contracts.dead)
  }

  /** Live records and staged keys of each table, and the environment record. */
  datatype DataState<M> = DataState(
    addresses: State<AddressRefKey, AddressRef>,
    chains: State<ChainMetadataKey, ChainMetadata<M>>,
    contracts: State<ContractMetadataKey, ContractMetadata<M>>,
    env: Option<M>)

  ghost function AbstractData<M(!new)>(t: VersionText, d: DataValue<M>): DataState<M> {
    DataState(Abstract(AddressRefs(t), d.addresses), Abstract(ChainMetadataTable<M>(), d.chains),
              Abstract(ContractMetadataTable<M>(), d.contracts), d.env)
  }

  /** The law of merging, table by table; the source's environment record wins if there is one. */
  ghost function CombineData<M(!new)>(a: DataState<M>, b: DataState<M>): DataState<M> {
    DataState(Combine(a.addresses, b.addresses), Combine(a.chains, b.chains),
              Combine(a.contracts, b.contracts), if b.env.Some? then b.env else a.env)
  }

  /** A merge fails exactly when a staged key of the source does not parse, and always leaves a valid store. */
  lemma MergeDataSucceedsIff<M(!new)>(t: VersionText, d: DataValue<M>, s: DataValue<M>)
    requires t.Lawful() && ValidData(t, d) && ValidData(t, s)
    ensures var (m, err) := MergeData(t, d, s);
            && ValidData(t, m)
            && (err.None? <==> AllStagedParse(t, s))
            && (err.None? && AllStagedParse(t, d) ==> AllStagedParse(t, m))
            && (err.Some? ==> m.env == d.env)
  {
    TablesLawful<M>(t);
    MergeSucceedsIff(AddressRefs(t), d.addresses, s.addresses);
    MergeSucceedsIff(ChainMetadataTable<M>(), d.chains, s.chains);
    MergeSucceedsIff(ContractMetadataTable<M>(), d.contracts, s.contracts);
  }

  /** Tables are merged in order, and the first that fails keeps what it got while those after it are untouched. */
  lemma MergeDataStopsInOrder<M(!new)>(t: VersionText, d: DataValue<M>, s: DataValue<M>)
    requires t.Lawful() && ValidData(t, d) && ValidData(t, s)
    ensures var (m, err) := MergeData(t, d, s);
            var (addresses, e1) := MergeStores(AddressRefs(t), d.addresses, s.addresses);
            var (chains, e2) := MergeStores(ChainMetadataTable<M>(), d.chains, s.chains);
            var (contracts, e3) := MergeStores(ContractMetadataTable<M>(), d.contracts, s.contracts);
            var ok1 := AllParse(AddressRefs(t), s.addresses.dead);
            var ok2 := AllParse(ChainMetadataTable<M>(), s.chains.dead);
            && m.addresses == addresses
            && m.chains == (if ok1 then chains else d.chains)
            && m.contracts == (if ok1 && ok2 then contracts else d.contracts)
            && err == if !ok1 then e1 else if !ok2 then e2 else e3
  {
    TablesLawful<M>(t);
    MergeSucceedsIff(AddressRefs(t), d.addresses, s.addresses);
    MergeSucceedsIff(ChainMetadataTable<M>(), d.chains, s.chains);
  }

  lemma MergeSucceedsIff<K(!new), R(!new)>(sc: Schema<K, R>, dst: Store<R>, src: Store<R>)
    requires Lawful(sc) && ValidStore(sc, dst) && ValidStore(sc, src)
    ensures var (s', err) := MergeStores(sc, dst, src);
            && ValidStore(sc, s')
            && (err.None? <==> AllParse(sc, src.dead))
            && (err.None? && AllParse(sc, dst.dead) ==> AllParse(sc, s'.dead))
  {
    MergeRefines(sc, dst, src);
  }

  /** A merge that succeeds follows the law. */
  lemma MergeDataRefines<M(!new)>(t: VersionText, d: DataValue<M>, s: DataValue<M>)
    requires t.Lawful() && ValidData(t, d) && ValidData(t, s)
    requires MergeData(t, d, s).1.None?
    ensures AbstractData(t, MergeData(t, d, s).0) == CombineData(AbstractData(t, d), AbstractData(t, s))
  {
    TablesLawful<M>(t);
    MergeRefines(AddressRefs(t), d.addresses, s.addresses);
    MergeRefines(ChainMetadataTable<M>(), d.chains, s.chains);
    MergeRefines(ContractMetadataTable<M>(), d.contracts, s.contracts);
  }

  /** Merging is associative: both groupings succeed, with the same tables and environment. */
  lemma DataMergeIsAssociative<M(!new)>(t: VersionText, a: DataValue<M>, b: DataValue<M>, c: DataValue<M>)
    requires t.Lawful() && ValidData(t, a) && ValidData(t, b) && ValidData(t, c)
    requires AllStagedParse(t, b) && AllStagedParse(t, c)
    ensures var (ab, e1) := MergeData(t, a, b);
            var (bc, e2) := MergeData(t, b, c);
            && e1.None? && e2.None?
            && MergeData(t, ab, c).1.None? && MergeData(t, a, bc).1.None?
            && AbstractData(t, MergeData(t, ab, c).0) == AbstractData(t, MergeData(t, a, bc).0)
  {
    MergeDataSucceedsIff(t, a, b);
    MergeDataSucceedsIff(t, b, c);
    MergeDataSucceedsIff(t, MergeData(t, a, b).0, c);
    MergeDataSucceedsIff(t, a, MergeData(t, b, c).0);
    MergeDataRefines(t, a, b);
    MergeDataRefines(t, b, c);
    MergeDataRefines(t, MergeData(t, a, b).0, c);
    MergeDataRefines(t, a, MergeData(t, b, c).0);
    CombineDataIsAssociative(AbstractData(t, a), AbstractData(t, b), AbstractData(t, c));
  }

  lemma CombineDataIsAssociative<M(!new)>(a: DataState<M>, b: DataState<M>, c: DataState<M>)
    ensures CombineData(CombineData(a, b), c) == CombineData(a, CombineData(b, c))
  {
    CombineIsAssociative(a.addresses, b.addresses, c.addresses);
    CombineIsAssociative(a.chains, b.chains, c.chains);
    CombineIsAssociative(a.contracts, b.contracts, c.contracts);
  }

  /** Merging the same source again succeeds and changes nothing. */
  lemma DataMergeIsIdempotent<M(!new)>(t: VersionText, d: DataValue<M>, s: DataValue<M>)
    requires t.Lawful() && ValidData(t, d) && ValidData(t, s) && AllStagedParse(t, s)
    ensures var (m, e) := MergeData(t, d, s);
            && e.None? && MergeData(t, m, s).1.None?
            && AbstractData(t, MergeData(t, m, s).0) == AbstractData(t, m)
  {
    MergeDataSucceedsIff(t, d, s);
    MergeDataSucceedsIff(t, MergeData(t, d, s).0, s);
    MergeDataRefines(t, d, s);
    MergeDataRefines(t, MergeData(t, d, s).0, s);
    var a, b := AbstractData(t, d), AbstractData(t, s);
    CombineIsIdempotent(a.addresses, b.addresses);
    CombineIsIdempotent(a.chains, b.chains);
    CombineIsIdempotent(a.contracts, b.contracts);
  }

  /** The key an address tombstone was printed from. */
  ghost predicate StagedFrom(t: VersionText, d: string, k: AddressRefKey) {
    k.version.Some? && PrintAddressRefKey(t, k) == d && '_' !in k.typ && '_' !in k.qualifier
  }

  /** Staged keys without the separator in type, qualifier or address always parse, so merging never fails on them. */
  lemma SeparatorFreeStagingParses<M(!new)>(t: VersionText, s: DataValue<M>)
    requires t.Lawful() && ValidData(t, s)
    requires forall d | d in s.addresses.dead :: exists k :: StagedFrom(t, d, k)
    requires forall d | d in s.contracts.dead ::
               exists k: ContractMetadataKey :: PrintContractMetadataKey(k) == d && '_' !in k.address
    ensures AllStagedParse(t, s)
  {
    forall d | d in s.addresses.dead ensures AddressRefs(t).parse(d).Ok? {
      var k :| StagedFrom(t, d, k);
      AddressRefKeyRoundTrip(t, k);
    }
    forall d | d in s.contracts.dead ensures ContractMetadataTable<M>().parse(d).Ok? {
      var k: ContractMetadataKey :| PrintContractMetadataKey(k) == d && '_' !in k.address;
      ContractMetadataKeyRoundTrip(k);
    }
    forall d | d in s.chains.dead ensures ChainMetadataTable<M>().parse(d).Ok? {
      var k :| ChainMetadataTable<M>().complete(k) && ChainMetadataTable<M>().print_(k) == d;
      ChainMetadataKeyRoundTrip(k);
    }
  }

  lemma MergeDataParts<M(!new)>(t: VersionText, a: DataValue<M>, b: DataValue<M>, m: DataValue<M>)
    requires MergeData(t, a, b) == (m, None)
    ensures MergeStores(AddressRefs(t), a.addresses, b.addresses) == (m.addresses, None)
    ensures MergeStores(ChainMetadataTable<M>(), a.chains, b.chains) == (m.chains, None)
    ensures MergeStores(ContractMetadataTable<M>(), a.contracts, b.contracts) == (m.contracts, None)
    ensures m.env == Override(a.env, b.env)
  {
  }

  /**
    A data store merged into itself keeps its live records and environment and cancels the
    staged deletions of live records; merging a copy of it does the same exactly when no
    table has a key both live and staged.
  */
  lemma MergeDataWithSelfRefines<M(!new)>(t: VersionText, d: DataValue<M>)
    requires t.Lawful() && ValidData(t, d) && AllStagedParse(t, d)
    ensures var (own, e1) := MergeDataWithSelf(t, d);
            var (copy, e2) := MergeData(t, d, d);
            var s := AbstractData(t, d);
            && e1.None? && e2.None? && ValidData(t, own) && own.env == d.env
            && AbstractData(t, own).addresses.live == s.addresses.live
            && AbstractData(t, own).chains.live == s.chains.live
            && AbstractData(t, own).contracts.live == s.contracts.live
            && (AbstractData(t, own) == AbstractData(t, copy) <==>
                  Settled(s.addresses) && Settled(s.chains) && Settled(s.contracts))
  {
    TablesLawful<M>(t);
    MergeWithSelfRefines(AddressRefs(t), d.addresses);
    MergeWithSelfRefines(ChainMetadataTable<M>(), d.chains);
    MergeWithSelfRefines(ContractMetadataTable<M>(), d.contracts);
    MergeDataParts(t, d, d, MergeData(t, d, d).0);
  }

  lemma PushDataParts<M(!new)>(
      t: VersionText, policy: DeletePolicy, c: CatalogValue<M>, s: DataValue<M>, r: CatalogValue<M>)
    requires PushData(t, policy, c, s) == Ok(r)
    ensures PushTable(AddressRefs(t), policy, c.addresses, s.addresses) == Ok(r.addresses)
    ensures PushTable(ChainMetadataTable<M>(), policy, c.chains, s.chains) == Ok(r.chains)
    ensures PushTable(ContractMetadataTable<M>(), policy, c.contracts, s.contracts) == Ok(r.contracts)
    ensures r.env == Override(c.env, s.env)
  {
  }

  /**
    Pushing Merge(a, b) to a catalog gives the catalog that pushing a and then b gives,
    environment record included, whenever every step succeeds.
  */
  lemma DataPushAfterMerge<M(!new)>(
      t: VersionText, policy: DeletePolicy, c: CatalogValue<M>, a: DataValue<M>, b: DataValue<M>, m: DataValue<M>,
      afterMerged: CatalogValue<M>, afterA: CatalogValue<M>, afterBoth: CatalogValue<M>)
    requires t.Lawful() && ValidData(t, a) && ValidData(t, b)
    requires MergeData(t, a, b) == (m, None)
    requires PushData(t, policy, c, m) == Ok(afterMerged)
    requires PushData(t, policy, c, a) == Ok(afterA) && PushData(t, policy, afterA, b) == Ok(afterBoth)
    ensures afterMerged == afterBoth
  {
    TablesLawful<M>(t);
    MergeDataParts(t, a, b, m);
    PushDataParts(t, policy, c, m, afterMerged);
    PushDataParts(t, policy, c, a, afterA);
    PushDataParts(t, policy, afterA, b, afterBoth);
    PushAfterMerge(AddressRefs(t), policy, c.addresses, a.addresses, b.addresses);
    PushAfterMerge(ChainMetadataTable<M>(), policy, c.chains, a.chains, b.chains);
    PushAfterMerge(ContractMetadataTable<M>(), policy, c.contracts, a.contracts, b.contracts);
  }

  /** Whether the deletes of a table's push go through, once its live records are written. */
  ghost predicate Pushes<K(!new), R(!new)>(sc: Schema<K, R>, policy: DeletePolicy, table: map<K, R>, s: Store<R>) {
    Deletable(sc, policy, table + Live(sc, s.records), s.dead)
  }

  /**
    A push goes through exactly when each table's deletes do.  It then acts on every table as
    the law says, and sets the catalog's environment record to the data store's, if that has
    one; otherwise the error is that of the first table, in order, whose deletes do not.
  */
  lemma PushDataRefines<M(!new)>(t: VersionText, policy: DeletePolicy, c: CatalogValue<M>, s: DataValue<M>)
    requires t.Lawful() && ValidData(t, s)
    ensures var r := PushData(t, policy, c, s);
            var a, b, d := Pushes(AddressRefs(t), policy, c.addresses, s.addresses),
                           Pushes(ChainMetadataTable<M>(), policy, c.chains, s.chains),
                           Pushes(ContractMetadataTable<M>(), policy, c.contracts, s.contracts);
            && (r.Ok? <==> a && b && d)
            && (r.Ok? ==>
                  && r.value.addresses == Act(c.addresses, Abstract(AddressRefs(t), s.addresses))
                  && r.value.chains == Act(c.chains, Abstract(ChainMetadataTable<M>(), s.chains))
                  && r.value.contracts == Act(c.contracts, Abstract(ContractMetadataTable<M>(), s.contracts))
                  && r.value.env == if s.env.Some? then s.env else c.env)
            && (!a ==> PushTable(AddressRefs(t), policy, c.addresses, s.addresses) == Err(r.error))
            && (a && !b ==> PushTable(ChainMetadataTable<M>(), policy, c.chains, s.chains) == Err(r.error))
            && (a && b && !d ==>
                  PushTable(ContractMetadataTable<M>(), policy, c.contracts, s.contracts) == Err(r.error))
  {
    TablesLawful<M>(t);
    PushTableIff(AddressRefs(t), policy, c.addresses, s.addresses);
    PushTableIff(ChainMetadataTable<M>(), policy, c.chains, s.chains);
    PushTableIff(ContractMetadataTable<M>(), policy, c.contracts, s.contracts);
  }

  lemma PushTableIff<K(!new), R(!new)>(sc: Schema<K, R>, policy: DeletePolicy, table: map<K, R>, s: Store<R>)
    requires Lawful(sc) && ValidStore(sc, s)
    ensures var r := PushTable(sc, policy, table, s);
            (r.Ok? <==> Pushes(sc, policy, table, s)) && (r.Ok? ==> r.value == Act(table, Abstract(sc, s)))
  {
    PushRefines(sc, policy, table, s);
  }

  /** The catalog accepts every table's deletes of a data store on the rows it has. */
  ghost predicate AcceptsData<M(!new)>(t: VersionText, policy: DeletePolicy, c: CatalogValue<M>, s: DataValue<M>) {
    && Accepts(AddressRefs(t), policy, c.addresses.Keys, s.addresses.dead)
    && Accepts(ChainMetadataTable<M>(), policy, c.chains.Keys, s.chains.dead)
    && Accepts(ContractMetadataTable<M>(), policy, c.contracts.Keys, s.contracts.dead)
  }

  lemma PushDataOkIff<M(!new)>(t: VersionText, policy: DeletePolicy, c: CatalogValue<M>, s: DataValue<M>)
    ensures PushData(t, policy, c, s).Ok? <==>
              && PushTable(AddressRefs(t), policy, c.addresses, s.addresses).Ok?
              && PushTable(ChainMetadataTable<M>(), policy, c.chains, s.chains).Ok?
              && PushTable(ContractMetadataTable<M>(), policy, c.contracts, s.contracts).Ok?
  {
  }

  /**
    If the first data store can be pushed, its merge with the second can be pushed exactly
    when the catalog accepts the second's deletes on the rows it has before the push.
  */
  lemma DataMergedPushSucceedsIff<M(!new)>(
      t: VersionText, policy: DeletePolicy, c: CatalogValue<M>, a: DataValue<M>, b: DataValue<M>, m: DataValue<M>)
    requires t.Lawful() && ValidData(t, a) && ValidData(t, b)
    requires AllStagedParse(t, b) && PushData(t, policy, c, a).Ok?
    requires MergeData(t, a, b) == (m, None)
    ensures PushData(t, policy, c, m).Ok? <==> AcceptsData(t, policy, c, b)
  {
    TablesLawful<M>(t);
    MergeDataParts(t, a, b, m);
    PushDataOkIff(t, policy, c, a);
    PushDataOkIff(t, policy, c, m);
    MergedPushSucceedsIff(AddressRefs(t), policy, c.addresses, a.addresses, b.addresses);
    MergedPushSucceedsIff(ChainMetadataTable<M>(), policy, c.chains, a.chains, b.chains);
    MergedPushSucceedsIff(ContractMetadataTable<M>(), policy, c.contracts, a.contracts, b.contracts);
  }

  /**
    Pushing a data store to an empty catalog and loading gives, table by table, its live
    records less its staged keys, with nothing staged, and its environment record.
  */
  lemma DataPushThenLoad<M(!new)>(
      t: VersionText, policy: DeletePolicy, s: DataValue<M>, c: CatalogValue<M>, d: DataValue<M>)
    requires t.Lawful() && ValidData(t, s)
    requires PushData(t, policy, CatalogValue(map[], map[], map[], None), s) == Ok(c)
    requires Lists(AddressRefs(t), d.addresses.records, c.addresses) && d.addresses.dead == []
    requires Lists(ChainMetadataTable<M>(), d.chains.records, c.chains) && d.chains.dead == []
    requires Lists(ContractMetadataTable<M>(), d.contracts.records, c.contracts) && d.contracts.dead == []
    requires d.env == c.env
    ensures var was, now := AbstractData(t, s), AbstractData(t, d);
            && now.addresses == State(was.addresses.live - was.addresses.dead, {})
            && now.chains == State(was.chains.live - was.chains.dead, {})
            && now.contracts == State(was.contracts.live - was.contracts.dead, {})
            && now.env == was.env
  {
    TablesLawful<M>(t);
    PushDataParts(t, policy, CatalogValue(map[], map[], map[], None), s, c);
    PushThenLoad(AddressRefs(t), policy, s.addresses, d.addresses.records);
    PushThenLoad(ChainMetadataTable<M>(), policy, s.chains, d.chains.records);
    PushThenLoad(ContractMetadataTable<M>(), policy, s.contracts, d.contracts.records);
  }

  // ----- As objects -----

  class DataStore<!M(!new)> {
    const t: VersionText
    const addresses: MemoryStore<AddressRefKey, AddressRef>
    const chains: MemoryStore<ChainMetadataKey, ChainMetadata<M>>
    const contracts: MemoryStore<ContractMetadataKey, ContractMetadata<M>>
    var env: Option<M>

    ghost function Value(): DataValue<M>
      reads this, addresses, chains, contracts
    {
      DataValue(addresses.Value(), chains.Value(), contracts.Value(), env)
    }

    ghost predicate Valid()
      reads this, addresses, chains, contracts
    {
      && t.Lawful()
      && addresses.sc == AddressRefs(t) && addresses.Valid()
      && chains.sc == ChainMetadataTable<M>() && chains.Valid()
      && contracts.sc == ContractMetadataTable<M>() && contracts.Valid()
    }

    constructor (t: VersionText)
      requires t.Lawful()
      ensures Valid() && this.t == t
      ensures Value() == DataValue(Store([], []), Store([], []), Store([], []), None)
      ensures fresh(addresses) && fresh(chains) && fresh(contracts)
    {
      TablesLawful<M>(t);
      this.t := t;
      addresses := new MemoryStore(AddressRefs(t));
      chains := new MemoryStore(ChainMetadataTable<M>());
      contracts := new MemoryStore(ContractMetadataTable<M>());
      env := None;
    }

    /** Shares no table with another data store. */
    predicate Apart(other: DataStore<M>) {
      other != this && other.addresses != addresses && other.chains != chains && other.contracts != contracts
    }

    /** Applies the records and staged deletions of a data store, which may be this one, to this one. */
    method Merge(other: DataStore<M>) returns (err: Option<KeyError>)
      requires Valid() && other.Valid() && other.t == t
      requires other == this || Apart(other)
      modifies this, addresses, chains, contracts
      ensures Valid()
      ensures other != this ==> other.Value() == old(other.Value())
      ensures (Value(), err) == if other == this then MergeDataWithSelf(t, old(Value()))
                                else MergeData(t, old(Value()), old(other.Value()))
      ensures err.None? && old(other.env).Some? ==> env == old(other.env)
      ensures err.Some? || old(other.env).None? ==> env == old(env)
    {
      err := addresses.MergeFrom(other.addresses);
      if err.Some? { return; }
      err := chains.MergeFrom(other.chains);
      if err.Some? { return; }
      err := contracts.MergeFrom(other.contracts);
      if err.Some? { return; }
      if other.env.Some? { env := other.env; }
    }
  }

  /** A table of a remote catalog. */
  class CatalogTable<!K(==,!new), !R(!new)> {
    const sc: Schema<K, R>
    const policy: DeletePolicy
    var rows: map<K, R>

    constructor (sc: Schema<K, R>, policy: DeletePolicy)
      ensures this.sc == sc && this.policy == policy && rows == map[]
    {
      this.sc, this.policy, rows := sc, policy, map[];
    }

    method UpsertRow(r: R)
      modifies this
      ensures rows == old(rows)[sc.key(r) := r]
    {
      rows := rows[sc.key(r) := r];
    }

    method Delete(k: K) returns (ok: bool)
      modifies this
      ensures policy == Lenient ==> ok
      ensures policy == Strict ==> (ok <==> k in old(rows))
      ensures policy == Unsupported ==> !ok
      ensures rows == if ok then old(rows) - {k} else old(rows)
    {
      match policy
      case Unsupported => return false;
      case Strict =>
        if k !in rows { return false; }
        rows := rows - {k};
        return true;
      case Lenient =>
        rows := rows - {k};
        return true;
    }

    /** The rows in whatever order the catalog yields them. */
    method Fetch() returns (fetched: seq<R>)
      requires TableComplete(sc, rows)
      ensures Lists(sc, fetched, rows)
    {
      fetched := [];
      var pending := rows;
      while pending != map[]
        invariant pending.Keys <= rows.Keys && forall k | k in pending :: pending[k] == rows[k]
        invariant Lists(sc, fetched, rows - pending.Keys)
        decreases pending.Keys
      {
        var k :| k in pending;
        var before, was := fetched, pending;
        fetched := fetched + [pending[k]];
        pending := pending - {k};
        assert fetched[..|before|] == before;
        forall i | 0 <= i < |before| ensures sc.key(before[i]) != k { LiveIs(sc, before, sc.key(before[i])); }
        assert rows - pending.Keys == (rows - was.Keys)[k := rows[k]];
      }
      assert rows - pending.Keys == rows;
    }

    /** One table of a push, up to the first failure. */
    method PushFrom(src: MemoryStore<K, R>) returns (err: Option<PushError>)
      requires src.sc == sc
      modifies this
      ensures var r := PushTable(sc, policy, old(rows), src.Value());
              (err.None? <==> r.Ok?) && (err.None? ==> rows == r.value) && (err.Some? ==> r == Err(err.value))
    {
      var fetched := src.Fetch();
      for i := 0 to |fetched|
        invariant rows == UpsertRows(sc, old(rows), fetched[..i])
      {
        UpsertRow(fetched[i]);
        assert fetched[..i + 1][..i] == fetched[..i];
      }
      assert fetched[..|fetched|] == fetched;
      var dead := src.deletedRemoteKeys;
      ghost var upserted := rows;
      for i := 0 to |dead|
        invariant DeleteRows(sc, policy, upserted, dead[..i]) == Ok(rows)
      {
        assert dead[..i + 1][..i] == dead[..i];
        match sc.parse(dead[i])
        case Err(e) =>
          DeleteRowsStop(sc, policy, upserted, dead, i + 1);
          return Some(BadKey(e));
        case Ok(k) =>
          var ok := Delete(k);
          if !ok {
            DeleteRowsStop(sc, policy, upserted, dead, i + 1);
            return Some(DeleteRejected);
          }
      }
      assert dead[..|dead|] == dead;
      return None;
    }
  }

  lemma {:induction false} DeleteRowsStop<K(!new), R(!new)>(
      sc: Schema<K, R>, policy: DeletePolicy, table: map<K, R>, dead: seq<string>, i: nat)
    requires i <= |dead| && DeleteRows(sc, policy, table, dead[..i]).Err?
    ensures DeleteRows(sc, policy, table, dead) == DeleteRows(sc, policy, table, dead[..i])
    decreases |dead|
  {
    if i < |dead| {
      assert dead[..|dead| - 1][..i] == dead[..i];
      DeleteRowsStop(sc, policy, table, dead[..|dead| - 1], i);
    } else {
      assert dead[..i] == dead;
    }
  }

  ghost predicate CatalogComplete<M(!new)>(t: VersionText, c: CatalogValue<M>) {
    && TableComplete(AddressRefs(t), c.addresses)
    && TableComplete(ChainMetadataTable<M>(), c.chains)
    && TableComplete(ContractMetadataTable<M>(), c.contracts)
  }

  lemma PushDataKeepsComplete<M(!new)>(t: VersionText, policy: DeletePolicy, c: CatalogValue<M>, s: DataValue<M>)
    requires t.Lawful() && ValidData(t, s) && CatalogComplete(t, c)
    ensures PushData(t, policy, c, s).Ok? ==> CatalogComplete(t, PushData(t, policy, c, s).value)
  {
    TablesLawful<M>(t);
    PushKeepsComplete(AddressRefs(t), policy, c.addresses, s.addresses);
    PushKeepsComplete(ChainMetadataTable<M>(), policy, c.chains, s.chains);
    PushKeepsComplete(ContractMetadataTable<M>(), policy, c.contracts, s.contracts);
    if PushData(t, policy, c, s).Ok? { PushDataParts(t, policy, c, s, PushData(t, policy, c, s).value); }
  }

  class CatalogStore<!M(!new)> {
    const t: VersionText
    const policy: DeletePolicy
    const addresses: CatalogTable<AddressRefKey, AddressRef>
    const chains: CatalogTable<ChainMetadataKey, ChainMetadata<M>>
    const contracts: CatalogTable<ContractMetadataKey, ContractMetadata<M>>
    var env: Option<M>

    ghost function Value(): CatalogValue<M>
      reads this, addresses, chains, contracts
    {
      CatalogValue(addresses.rows, chains.rows, contracts.rows, env)
    }

    ghost predicate Valid()
      reads this, addresses, chains, contracts
    {
      && t.Lawful() && CatalogComplete(t, Value())
      && addresses.sc == AddressRefs(t) && addresses.policy == policy
      && chains.sc == ChainMetadataTable<M>() && chains.policy == policy
      && contracts.sc == ContractMetadataTable<M>() && contracts.policy == policy
    }

    constructor (t: VersionText, policy: DeletePolicy)
      requires t.Lawful()
      ensures Valid() && this.t == t && this.policy == policy && Value() == CatalogValue(map[], map[], map[], None)
      ensures fresh(addresses) && fresh(chains) && fresh(contracts)
    {
      this.t, this.policy, env := t, policy, None;
      addresses := new CatalogTable(AddressRefs(t), policy);
      chains := new CatalogTable(ChainMetadataTable<M>(), policy);
      contracts := new CatalogTable(ContractMetadataTable<M>(), policy);
    }

    /** Pushes a data store in a transaction: all of it, or the catalog is as before. */
    method MergeDataStoreToCatalog(src: DataStore<M>) returns (err: Option<PushError>)
      requires Valid() && src.Valid() && src.t == t
      modifies this, addresses, chains, contracts
      ensures Valid() && src.Value() == old(src.Value())
      ensures match PushData(t, policy, old(Value()), old(src.Value()))
              case Ok(after) => err == None && Value() == after
              case Err(e) => err == Some(e) && Value() == old(Value())
      ensures err.None? && old(src.env).Some? ==> env == old(src.env)
      ensures err.Some? || old(src.env).None? ==> env == old(env)
    {
      PushDataKeepsComplete(t, policy, Value(), src.Value());
      var saved := (addresses.rows, chains.rows, contracts.rows, env);
      err := MergeInTransaction(src);
      if err.Some? {
        addresses.rows, chains.rows, contracts.rows, env := saved.0, saved.1, saved.2, saved.3;
      }
    }

    /** The steps of the transaction; a failure leaves whatever was written so far. */
    method MergeInTransaction(src: DataStore<M>) returns (err: Option<PushError>)
      requires Valid() && src.Valid() && src.t == t
      modifies this, addresses, chains, contracts
      ensures match PushData(t, policy, old(Value()), old(src.Value()))
              case Ok(after) => err == None && Value() == after
              case Err(e) => err == Some(e)
    {
      err := addresses.PushFrom(src.addresses);
      if err.Some? { return; }
      err := chains.PushFrom(src.chains);
      if err.Some? { return; }
      err := contracts.PushFrom(src.contracts);
      if err.Some? { return; }
      if src.env.Some? { env := src.env; }
    }
  }

  lemma PushKeepsComplete<K(!new), R(!new)>(sc: Schema<K, R>, policy: DeletePolicy, table: map<K, R>, s: Store<R>)
    requires Lawful(sc) && ValidStore(sc, s) && TableComplete(sc, table)
    ensures var r := PushTable(sc, policy, table, s);
            r.Ok? ==> TableComplete(sc, r.value)
  {
    PushRefines(sc, policy, table, s);
    var r := PushTable(sc, policy, table, s);
    if r.Ok? {
      forall k | k in r.value ensures sc.complete(k) && sc.key(r.value[k]) == k {
        LiveIs(sc, s.records, k);
      }
    }
  }

  /** Adds fetched rows one by one to an empty store. */
  method LoadTable<K(!new), R(!new)>(store: MemoryStore<K, R>, rows: seq<R>) returns (err: Option<StoreError>)
    requires store.Valid() && store.Value() == Store([], [])
    modifies store
    ensures store.Valid()
    ensures match LoadRows(store.sc, rows)
            case None => err.Some?
            case Some(s) => err == None && store.Value() == s
  {
    for i := 0 to |rows|
      invariant store.Valid()
      invariant LoadRows(store.sc, rows[..i]) == Some(store.Value())
    {
      LoadNext(store.sc, rows, i);
      IndexFindsLive(store.sc, store.records, store.sc.key(rows[i]));
      err := store.Add(rows[i]);
      if err.Some? {
        LoadStops(store.sc, rows, i + 1);
        return;
      }
    }
    assert rows[..|rows|] == rows;
    err := None;
  }

  lemma LoadNext<K(!new), R(!new)>(sc: Schema<K, R>, rows: seq<R>, i: nat)
    requires i < |rows|
    ensures LoadRows(sc, rows[..i + 1]) ==
              match LoadRows(sc, rows[..i])
              case None => None
              case Some(s) =>
                if IndexOf(sc, s.records, sc.key(rows[i])) < |s.records| || !sc.complete(sc.key(rows[i])) then None
                else Some(Upsert(sc, s, rows[i]))
  {
    assert rows[..i + 1][..i] == rows[..i];
  }

  lemma {:induction false} LoadStops<K(!new), R(!new)>(sc: Schema<K, R>, rows: seq<R>, i: nat)
    requires i <= |rows| && LoadRows(sc, rows[..i]).None?
    ensures LoadRows(sc, rows).None?
    decreases |rows|
  {
    if i < |rows| {
      assert rows[..|rows| - 1][..i] == rows[..i];
      LoadStops(sc, rows[..|rows| - 1], i);
    } else {
      assert rows[..i] == rows;
    }
  }

  /** Fetches a catalog table into an empty store. */
  method FetchInto<K(!new), R(!new)>(
      table: CatalogTable<K, R>, store: MemoryStore<K, R>) returns (err: Option<StoreError>)
    requires store.Valid() && store.Value() == Store([], [])
    requires store.sc == table.sc && TableComplete(table.sc, table.rows)
    modifies store
    ensures store.Valid() && err == None
    ensures Lists(store.sc, store.records, table.rows) && store.deletedRemoteKeys == []
  {
    var rows := table.Fetch();
    LoadThenPush(table.sc, table.policy, table.rows, rows);
    err := LoadTable(store, rows);
  }

  /** Loads a catalog into a new data store: it never fails, stages nothing, and holds exactly the catalog's rows. */
  method LoadDataStoreFromCatalog<M(!new)>(catalog: CatalogStore<M>) returns (ds: DataStore<M>, err: Option<StoreError>)
    requires catalog.Valid()
    ensures fresh(ds) && ds.Valid() && ds.t == catalog.t && err == None
    ensures Lists(ds.addresses.sc, ds.addresses.records, catalog.addresses.rows) && ds.addresses.deletedRemoteKeys == []
    ensures Lists(ds.chains.sc, ds.chains.records, catalog.chains.rows) && ds.chains.deletedRemoteKeys == []
    ensures Lists(ds.contracts.sc, ds.contracts.records, catalog.contracts.rows) && ds.contracts.deletedRemoteKeys == []
    ensures ds.env == catalog.env
  {
    ds := new DataStore(catalog.t);
    err := FetchInto(catalog.addresses, ds.addresses);
    if err.Some? { return; }
    err := FetchInto(catalog.chains, ds.chains);
    if err.Some? { return; }
    err := FetchInto(catalog.contracts, ds.contracts);
    if err.Some? { return; }
    if catalog.env.Some? { ds.env := catalog.env; }
  }

  /** Loading a catalog and pushing the result back leaves every table and the environment as they were. */
  lemma LoadThenPushData<M(!new)>(t: VersionText, policy: DeletePolicy, c: CatalogValue<M>, d: DataValue<M>)
    requires t.Lawful()
    requires CatalogComplete(t, c)
    requires Lists(AddressRefs(t), d.addresses.records, c.addresses) && d.addresses.dead == []
    requires Lists(ChainMetadataTable<M>(), d.chains.records, c.chains) && d.chains.dead == []
    requires Lists(ContractMetadataTable<M>(), d.contracts.records, c.contracts) && d.contracts.dead == []
    requires d.env == c.env
    ensures PushData(t, policy, c, d) == Ok(c)
  {
    TablesLawful<M>(t);
    LoadThenPush(AddressRefs(t), policy, c.addresses, d.addresses.records);
    LoadThenPush(ChainMetadataTable<M>(), policy, c.chains, d.chains.records);
    LoadThenPush(ContractMetadataTable<M>(), policy, c.contracts, d.contracts.records);
  }
}
