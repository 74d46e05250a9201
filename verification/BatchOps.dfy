/** Merging batch operations per chain, and resolving their timelocks and metadata. */
module BatchOps {
  import opened Prelude

  datatype BatchOperation<+T> = BatchOperation(chain: nat, transactions: seq<T>)

  // ----- Reference reading -----

  /** All transactions for a chain, in order. */
  function TransactionsFor<T>(ops: seq<BatchOperation<T>>, chain: nat): seq<T> {
    if ops == [] then []
    else
      var last := ops[|ops| - 1];
      TransactionsFor(ops[..|ops| - 1], chain) + (if last.chain == chain then last.transactions else [])
  }

  /** The chains that have an operation, each once, by first appearance. */
  function ChainsOf<T>(ops: seq<BatchOperation<T>>): seq<nat> {
    if ops == [] then []
    else
      var before, last := ChainsOf(ops[..|ops| - 1]), ops[|ops| - 1];
      if last.chain in before then before else before + [last.chain]
  }

  function Filtered<T>(ops: seq<BatchOperation<T>>): seq<BatchOperation<T>> {
    if ops == [] then []
    else
      var before, last := Filtered(ops[..|ops| - 1]), ops[|ops| - 1];
      if last.transactions == [] then before else before + [last]
  }

  /** One operation per chain of the non-empty operations, holding all its transactions. */
  function Merged<T>(ops: seq<BatchOperation<T>>): seq<BatchOperation<T>> {
    var chains := ChainsOf(Filtered(ops));
    seq(|chains|, i requires 0 <= i < |chains| => BatchOperation(chains[i], TransactionsFor(ops, chains[i])))
  }

  predicate Distinct(s: seq<nat>) {
    forall i, j | 0 <= i < j < |s| :: s[i] != s[j]
  }

  lemma InitOfJoined<T>(a: seq<T>, b: seq<T>)
    requires b != []
    ensures (a + b)[..|a + b| - 1] == a + b[..|b| - 1] && (a + b)[|a + b| - 1] == b[|b| - 1]
  {
  }

  lemma TransactionsOfOne<T>(op: BatchOperation<T>, c: nat)
    ensures TransactionsFor([op], c) == if op.chain == c then op.transactions else []
  {
    assert [op][..0] == [];
  }

  /** Transactions are listed batch after batch: those of a chain in a joined list are those of its parts, in turn. */
  lemma {:induction false} TransactionsInOrder<T>(a: seq<BatchOperation<T>>, b: seq<BatchOperation<T>>, c: nat)
    ensures TransactionsFor(a + b, c) == TransactionsFor(a, c) + TransactionsFor(b, c)
  {
    if b == [] {
      assert a + b == a;
    } else {
      TransactionsInOrder(a, b[..|b| - 1], c);
      InitOfJoined(a, b);
    }
  }

  lemma FilteredOfOne<T>(op: BatchOperation<T>)
    ensures Filtered([op]) == if op.transactions == [] then [] else [op]
  {
    assert [op][..0] == [];
  }

  /** Filtering goes operation by operation. */
  lemma {:induction false} FilteredInOrder<T>(a: seq<BatchOperation<T>>, b: seq<BatchOperation<T>>)
    ensures Filtered(a + b) == Filtered(a) + Filtered(b)
  {
    if b == [] {
      assert a + b == a;
    } else {
      FilteredInOrder(a, b[..|b| - 1]);
      InitOfJoined(a, b);
    }
  }

  // ----- The loops -----

  method FilterNonEmptyBatchOps<T>(ops: seq<BatchOperation<T>>) returns (filtered: seq<BatchOperation<T>>)
    ensures filtered == Filtered(ops)
  {
    filtered := [];
    for i := 0 to |ops|
      invariant filtered == Filtered(ops[..i])
    {
      assert ops[..i + 1][..i] == ops[..i];
      if |ops[i].transactions| > 0 { filtered := filtered + [ops[i]]; }
    }
    assert ops[..|ops|] == ops;
  }

  lemma TransactionsOfLast<T>(ops: seq<BatchOperation<T>>, c: nat)
    requires ops != []
    ensures var last := ops[|ops| - 1];
            TransactionsFor(ops, c) ==
              TransactionsFor(ops[..|ops| - 1], c) + (if last.chain == c then last.transactions else [])
  {
  }

  /** The table's view of a chain: absent when it has no transactions, else all of them. */
  ghost predicate TabulatedAt<T>(ops: seq<BatchOperation<T>>, txPerChain: map<nat, seq<T>>, c: nat) {
    var all := TransactionsFor(ops, c);
    if c in txPerChain then txPerChain[c] == all && all != [] else all == []
  }

  ghost predicate Tabulates<T>(ops: seq<BatchOperation<T>>, txPerChain: map<nat, seq<T>>) {
    forall c :: TabulatedAt(ops, txPerChain, c)
  }

  function Extended<T>(txPerChain: map<nat, seq<T>>, op: BatchOperation<T>): map<nat, seq<T>> {
    txPerChain[op.chain := (if op.chain in txPerChain then txPerChain[op.chain] else []) + op.transactions]
  }

  lemma TabulateOneMore<T>(ops: seq<BatchOperation<T>>, txPerChain: map<nat, seq<T>>)
    requires ops != [] && Tabulates(ops[..|ops| - 1], txPerChain)
    ensures var op := ops[|ops| - 1];
            Tabulates(ops, if op.transactions == [] then txPerChain else Extended(txPerChain, op))
  {
    var op := ops[|ops| - 1];
    var after := if op.transactions == [] then txPerChain else Extended(txPerChain, op);
    forall c ensures TabulatedAt(ops, after, c) {
      assert TabulatedAt(ops[..|ops| - 1], txPerChain, c);
      TransactionsOfLast(ops, c);
    }
  }

  lemma OrderOneMore<T>(ops: seq<BatchOperation<T>>, txPerChain: map<nat, seq<T>>)
    requires ops != [] && Tabulates(ops[..|ops| - 1], txPerChain)
    ensures var op, before := ops[|ops| - 1], ChainsOf(Filtered(ops[..|ops| - 1]));
            ChainsOf(Filtered(ops)) ==
              if op.transactions == [] || op.chain in txPerChain then before else before + [op.chain]
  {
    FilteredLast(ops);
    FilteredChains(ops[..|ops| - 1], ops[|ops| - 1].chain);
    assert TabulatedAt(ops[..|ops| - 1], txPerChain, ops[|ops| - 1].chain);
  }

  /** Assembles the merged operations from the table. */
  method Assemble<T>(
      ghost ops: seq<BatchOperation<T>>, txPerChain: map<nat, seq<T>>, chainOrder: seq<nat>)
    returns (merged: seq<BatchOperation<T>>)
    requires Tabulates(ops, txPerChain) && chainOrder == ChainsOf(Filtered(ops))
    ensures merged == Merged(ops)
  {
    merged := [];
    for i := 0 to |chainOrder|
      invariant |merged| == i
      invariant forall j | 0 <= j < i :: merged[j] == BatchOperation(chainOrder[j], TransactionsFor(ops, chainOrder[j]))
    {
      assert chainOrder[i] in chainOrder;
      FilteredChains(ops, chainOrder[i]);
      assert TabulatedAt(ops, txPerChain, chainOrder[i]);
      merged := merged + [BatchOperation(chainOrder[i], txPerChain[chainOrder[i]])];
    }
  }

  method MergeBatchOpsPerChain<T>(ops: seq<BatchOperation<T>>) returns (merged: seq<BatchOperation<T>>)
    ensures merged == Merged(ops)
  {
    var txPerChain: map<nat, seq<T>> := map[];
    var chainOrder: seq<nat> := [];
    for i := 0 to |ops|
      invariant Tabulates(ops[..i], txPerChain)
      invariant chainOrder == ChainsOf(Filtered(ops[..i]))
    {
      var op := ops[i];
      assert ops[..i + 1][..i] == ops[..i];
      TabulateOneMore(ops[..i + 1], txPerChain);
      OrderOneMore(ops[..i + 1], txPerChain);
      if op.transactions == [] { continue; }
      if op.chain !in txPerChain {
        chainOrder := chainOrder + [op.chain];
      }
      var seen := if op.chain in txPerChain then txPerChain[op.chain] else [];
      txPerChain := txPerChain[op.chain := seen + op.transactions];
    }
    assert ops[..|ops|] == ops;
    merged := Assemble(ops, txPerChain, chainOrder);
  }

  // ----- What merging keeps -----

  lemma {:induction false} ChainsAreDistinct<T>(ops: seq<BatchOperation<T>>)
    ensures Distinct(ChainsOf(ops))
    ensures forall c :: c in ChainsOf(ops) <==> exists i :: 0 <= i < |ops| && ops[i].chain == c
  {
    if ops != [] { ChainsAreDistinct(ops[..|ops| - 1]); }
  }

  /** Where a chain first has an operation. */
  function FirstAt<T>(ops: seq<BatchOperation<T>>, chain: nat): (i: nat)
    ensures i <= |ops| && (i < |ops| ==> ops[i].chain == chain)
    ensures forall j | 0 <= j < i :: ops[j].chain != chain
  {
    if ops == [] then 0 else if ops[0].chain == chain then 0 else 1 + FirstAt(ops[1..], chain)
  }

  lemma FirstAtPrefix<T>(ops: seq<BatchOperation<T>>, n: nat, chain: nat)
    requires n <= |ops| && FirstAt(ops[..n], chain) < n
    ensures FirstAt(ops, chain) == FirstAt(ops[..n], chain)
  {
  }

  /** The chains come in the order in which they first appear. */
  lemma {:induction false} ChainsInOrderOfAppearance<T>(ops: seq<BatchOperation<T>>, i: nat, j: nat)
    requires i < j < |ChainsOf(ops)|
    ensures FirstAt(ops, ChainsOf(ops)[i]) < FirstAt(ops, ChainsOf(ops)[j]) < |ops|
    decreases |ops|
  {
    var n := |ops| - 1;
    var init, chains := ops[..n], ChainsOf(ops);
    ChainsAreDistinct(init);
    ChainsAreDistinct(ops);
    assert chains == ChainsOf(init) || chains == ChainsOf(init) + [ops[n].chain];
    assert chains[i] in ChainsOf(init);
    FirstAtPrefix(ops, n, chains[i]);
    if j < |ChainsOf(init)| {
      ChainsInOrderOfAppearance(init, i, j);
      FirstAtPrefix(ops, n, chains[j]);
    } else {
      assert forall x | 0 <= x < n :: ops[x].chain in ChainsOf(init);
    }
  }

  lemma FilteredLast<T>(ops: seq<BatchOperation<T>>)
    requires ops != []
    ensures var before, last := Filtered(ops[..|ops| - 1]), ops[|ops| - 1];
            if last.transactions == [] then Filtered(ops) == before
            else
              && Filtered(ops) == before + [last]
              && Filtered(ops)[..|before|] == before && Filtered(ops)[|before|] == last
  {
  }

  lemma {:induction false} FilteredTransactions<T>(ops: seq<BatchOperation<T>>, chain: nat)
    ensures TransactionsFor(Filtered(ops), chain) == TransactionsFor(ops, chain)
  {
    if ops != [] {
      FilteredTransactions(ops[..|ops| - 1], chain);
      FilteredLast(ops);
    }
  }

  lemma {:induction false} FilteredNonEmpty<T>(ops: seq<BatchOperation<T>>)
    ensures forall op | op in Filtered(ops) :: op.transactions != []
  {
    if ops != [] {
      FilteredNonEmpty(ops[..|ops| - 1]);
      FilteredLast(ops);
    }
  }

  lemma {:induction false} FilteredChains<T>(ops: seq<BatchOperation<T>>, chain: nat)
    ensures chain in ChainsOf(Filtered(ops)) <==> TransactionsFor(ops, chain) != []
  {
    if ops != [] {
      var before, last := Filtered(ops[..|ops| - 1]), ops[|ops| - 1];
      FilteredChains(ops[..|ops| - 1], chain);
      FilteredLast(ops);
      if last.transactions != [] {
        var chains := ChainsOf(before);
        assert ChainsOf(before + [last]) == if last.chain in chains then chains else chains + [last.chain];
      }
    }
  }

  lemma {:induction false} AllNonEmptyIsFiltered<T>(ops: seq<BatchOperation<T>>)
    requires forall op | op in ops :: op.transactions != []
    ensures Filtered(ops) == ops
  {
    if ops != [] {
      AllNonEmptyIsFiltered(ops[..|ops| - 1]);
      assert ops == ops[..|ops| - 1] + [ops[|ops| - 1]];
    }
  }

  predicate OneEach<T>(ops: seq<BatchOperation<T>>) {
    forall i, j | 0 <= i < j < |ops| :: ops[i].chain != ops[j].chain
  }

  /** One operation each for distinct chains: the chains are the operations' chains. */
  lemma {:induction false} OneEachChains<T>(ops: seq<BatchOperation<T>>)
    requires OneEach(ops)
    ensures |ChainsOf(ops)| == |ops| && forall i | 0 <= i < |ops| :: ChainsOf(ops)[i] == ops[i].chain
  {
    if ops != [] {
      OneEachChains(ops[..|ops| - 1]);
      ChainsAreDistinct(ops[..|ops| - 1]);
    }
  }

  lemma {:induction false} OneEachTransactions<T>(ops: seq<BatchOperation<T>>, chain: nat)
    requires OneEach(ops)
    ensures forall i | 0 <= i < |ops| && ops[i].chain == chain :: TransactionsFor(ops, chain) == ops[i].transactions
    ensures (forall i | 0 <= i < |ops| :: ops[i].chain != chain) ==> TransactionsFor(ops, chain) == []
  {
    if ops != [] {
      OneEachTransactions(ops[..|ops| - 1], chain);
    }
  }

  /** Merging conserves work: every chain keeps its transactions, in order, in at most one operation, never empty. */
  lemma MergingConserves<T>(ops: seq<BatchOperation<T>>, chain: nat)
    ensures TransactionsFor(Merged(ops), chain) == TransactionsFor(ops, chain)
    ensures ChainsOf(Merged(ops)) == ChainsOf(Filtered(ops))
    ensures forall op | op in Merged(ops) :: op.transactions != []
    ensures OneEach(Merged(ops))
  {
    var m, chains := Merged(ops), ChainsOf(Filtered(ops));
    ChainsAreDistinct(Filtered(ops));
    FilteredChains(ops, chain);
    forall i | 0 <= i < |m| ensures m[i].transactions != [] {
      assert chains[i] in chains;
      FilteredChains(ops, chains[i]);
    }
    OneEachChains(m);
    OneEachTransactions(m, chain);
    assert ChainsOf(m) == chains;
    if chain in chains {
      var i :| 0 <= i < |chains| && chains[i] == chain;
      assert m[i].chain == chain;
    }
  }

  /** Merging twice is merging once, and filtering first makes no difference. */
  lemma MergingIsIdempotent<T>(ops: seq<BatchOperation<T>>)
    ensures Merged(Merged(ops)) == Merged(ops)
    ensures Merged(Filtered(ops)) == Merged(ops)
    ensures Filtered(Merged(ops)) == Merged(ops)
  {
    var m := Merged(ops);
    MergingConserves(ops, 0);
    AllNonEmptyIsFiltered(m);
    forall i | 0 <= i < |m| ensures Merged(m)[i] == m[i] { MergingConserves(ops, m[i].chain); }
    assert Merged(m) == m;
    FilteredNonEmpty(ops);
    AllNonEmptyIsFiltered(Filtered(ops));
    var f := Merged(Filtered(ops));
    forall i | 0 <= i < |m| ensures f[i] == m[i] { FilteredTransactions(ops, m[i].chain); }
    assert f == m;
  }

  // ----- Resolving -----

  datatype ResolveError<+E> =
    | UnknownFamily(chain: nat)
    | NoReader(chain: nat)
    | TimelockFailed(e: E)
    | MetadataFailed(e: E)

  /** The chain families and the readers registered for them; readers answer the same each time. */
  datatype Readers<!F, !M, !E> = Readers(
    family: nat -> Option<F>,
    registered: F -> bool,
    timelock: nat -> Result<string, E>,
    metadata: nat -> Result<M, E>)
  {
    function Resolve(chain: nat): Result<(string, M), ResolveError<E>> {
      match family(chain)
      case None => Err(UnknownFamily(chain))
      case Some(f) =>
        if !registered(f) then Err(NoReader(chain))
        else
          match timelock(chain)
          case Err(e) => Err(TimelockFailed(e))
          case Ok(address) =>
            match metadata(chain)
            case Err(e) => Err(MetadataFailed(e))
            case Ok(m) => Ok((address, m))
    }
  }

  /** Resolves chains in order, up to the first that fails. */
  function ResolveChains<F, M, E>(
      readers: Readers<F, M, E>, chains: seq<nat>): Result<(map<nat, string>, map<nat, M>), ResolveError<E>>
  {
    if chains == [] then Ok((map[], map[]))
    else
      match ResolveChains(readers, chains[..|chains| - 1])
      case Err(e) => Err(e)
      case Ok((timelocks, metadata)) =>
        var chain := chains[|chains| - 1];
        match readers.Resolve(chain)
        case Err(e) => Err(e)
        case Ok((address, m)) => Ok((timelocks[chain := address], metadata[chain := m]))
  }

  method ResolveMCMSPerChain<T, F, M, E>(readers: Readers<F, M, E>, ops: seq<BatchOperation<T>>)
    returns (r: Result<(map<nat, string>, map<nat, M>), ResolveError<E>>)
    ensures r == ResolveChains(readers, ChainsOf(ops))
  {
    var timelocks, metadata, seen := map[], map[], {};
    for i := 0 to |ops|
      invariant forall c :: c in seen <==> c in ChainsOf(ops[..i])
      invariant ResolveChains(readers, ChainsOf(ops[..i])) == Ok((timelocks, metadata))
    {
      var chain := ops[i].chain;
      ChainsOfNext(ops, i);
      if chain in seen { continue; }
      seen := seen + {chain};
      ResolveNext(readers, ChainsOf(ops[..i]), chain);
      match readers.Resolve(chain) {
        case Err(e) =>
          ResolveFails(readers, ops, i + 1);
          return Err(e);
        case Ok((address, m)) =>
          timelocks, metadata := timelocks[chain := address], metadata[chain := m];
      }
    }
    assert ops[..|ops|] == ops;
    return Ok((timelocks, metadata));
  }

  lemma ChainsOfNext<T>(ops: seq<BatchOperation<T>>, i: nat)
    requires i < |ops|
    ensures var before := ChainsOf(ops[..i]);
            ChainsOf(ops[..i + 1]) == if ops[i].chain in before then before else before + [ops[i].chain]
  {
    assert ops[..i + 1][..i] == ops[..i];
  }

  lemma ResolveNext<F, M, E>(readers: Readers<F, M, E>, chains: seq<nat>, chain: nat)
    requires ResolveChains(readers, chains).Ok?
    ensures var (timelocks, metadata) := ResolveChains(readers, chains).value;
            ResolveChains(readers, chains + [chain]) ==
              match readers.Resolve(chain)
              case Err(e) => Err(e)
              case Ok((address, m)) => Ok((timelocks[chain := address], metadata[chain := m]))
  {
    assert (chains + [chain])[..|chains|] == chains;
  }

  /** A failure on the first operations is the failure of all. */
  lemma ResolveFails<T, F, M, E>(readers: Readers<F, M, E>, ops: seq<BatchOperation<T>>, i: nat)
    requires i <= |ops| && ResolveChains(readers, ChainsOf(ops[..i])).Err?
    ensures ResolveChains(readers, ChainsOf(ops)) == ResolveChains(readers, ChainsOf(ops[..i]))
  {
    ChainsGrow(ops, i);
    var some, all := ChainsOf(ops[..i]), ChainsOf(ops);
    assert all[..|some|] == some;
    ResolveStops(readers, all, |some|);
  }

  lemma {:induction false} ChainsGrow<T>(ops: seq<BatchOperation<T>>, i: nat)
    requires i <= |ops|
    ensures ChainsOf(ops[..i]) <= ChainsOf(ops)
  {
    if i < |ops| {
      ChainsGrow(ops[..|ops| - 1], i);
      assert ops[..|ops| - 1][..i] == ops[..i];
    } else {
      assert ops[..i] == ops;
    }
  }

  lemma {:induction false} ResolveStops<F, M, E>(readers: Readers<F, M, E>, chains: seq<nat>, i: nat)
    requires i <= |chains| && ResolveChains(readers, chains[..i]).Err?
    ensures ResolveChains(readers, chains) == ResolveChains(readers, chains[..i])
  {
    if i < |chains| {
      assert chains[..|chains| - 1][..i] == chains[..i];
      ResolveStops(readers, chains[..|chains| - 1], i);
    } else {
      assert chains[..i] == chains;
    }
  }

  /** Everything a chain needs is there: a known family with a reader, a timelock and metadata. */
  ghost predicate Resolvable<F, M, E>(readers: Readers<F, M, E>, c: nat) {
    && readers.family(c).Some? && readers.registered(readers.family(c).value)
    && readers.timelock(c).Ok? && readers.metadata(c).Ok?
  }

  /** What is reported of a chain: the first thing it lacks. */
  ghost predicate Lacks<F, M, E>(readers: Readers<F, M, E>, c: nat, e: ResolveError<E>) {
    match e
    case UnknownFamily(x) => x == c && readers.family(c).None?
    case NoReader(x) => x == c && readers.family(c).Some? && !readers.registered(readers.family(c).value)
    case TimelockFailed(why) =>
      readers.family(c).Some? && readers.registered(readers.family(c).value) && readers.timelock(c) == Err(why)
    case MetadataFailed(why) =>
      && readers.family(c).Some? && readers.registered(readers.family(c).value)
      && readers.timelock(c).Ok? && readers.metadata(c) == Err(why)
  }

  /**
    Resolving succeeds exactly when every chain has all it needs, and each map then has
    exactly the chains as keys, each with its own timelock and its own metadata.
  */
  lemma {:induction false} ResolvedChains<F, M, E>(readers: Readers<F, M, E>, chains: seq<nat>)
    ensures var r := ResolveChains(readers, chains);
            && (r.Ok? <==> forall c | c in chains :: Resolvable(readers, c))
            && (r.Ok? ==> forall c :: (c in r.value.0 <==> c in chains) && (c in r.value.1 <==> c in chains))
            && (r.Ok? ==> forall c | c in chains ::
                  && Ok(r.value.0[c]) == readers.timelock(c)
                  && Ok(r.value.1[c]) == readers.metadata(c))
  {
    if chains != [] {
      var init, last := chains[..|chains| - 1], chains[|chains| - 1];
      ResolvedChains(readers, init);
      assert chains == init + [last];
      assert last in chains && forall c | c in init :: c in chains;
      assert forall c | c in chains :: c in init || c == last;
    }
  }

  /** Otherwise the error is that of the first chain that lacks something. */
  lemma {:induction false} FirstLackIsReported<F, M, E>(readers: Readers<F, M, E>, chains: seq<nat>) returns (i: nat)
    requires ResolveChains(readers, chains).Err?
    ensures i < |chains| && Lacks(readers, chains[i], ResolveChains(readers, chains).error)
    ensures forall j | 0 <= j < i :: Resolvable(readers, chains[j])
  {
    var n := |chains| - 1;
    if ResolveChains(readers, chains[..n]).Err? {
      i := FirstLackIsReported(readers, chains[..n]);
    } else {
      i := n;
      ResolvedChains(readers, chains[..n]);
      forall j | 0 <= j < n ensures Resolvable(readers, chains[j]) { assert chains[j] in chains[..n]; }
    }
  }

  /**
    Resolving gives exactly the batches' chains, in both maps, and succeeds exactly when
    every chain resolves.  Merged or only filtered batches give the same maps or fail alike.
  */
  lemma ResolveSameMergedOrFiltered<T, F, M, E>(readers: Readers<F, M, E>, ops: seq<BatchOperation<T>>)
    ensures ResolveChains(readers, ChainsOf(Merged(ops))) == ResolveChains(readers, ChainsOf(Filtered(ops)))
    ensures var r := ResolveChains(readers, ChainsOf(Filtered(ops)));
            r.Ok? ==> forall c ::
              (c in r.value.0 <==> TransactionsFor(ops, c) != []) && (c in r.value.1 <==> c in r.value.0)
  {
    MergingConserves(ops, 0);
    ResolvedChains(readers, ChainsOf(Filtered(ops)));
    forall c: nat ensures c in ChainsOf(Filtered(ops)) <==> TransactionsFor(ops, c) != [] { FilteredChains(ops, c); }
  }
}
