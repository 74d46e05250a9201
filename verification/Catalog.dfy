/** One catalog table on values, and what pushing a store to it and loading it back do. */
module Catalog {
  import opened Prelude
  import opened Keys
  import opened Stores

  /** Catalogs differ in what deleting does: ignore a missing key, reject it, or reject every delete. */
  datatype DeletePolicy = Lenient | Strict | Unsupported

  datatype PushError = BadKey(e: KeyError) | DeleteRejected

  function DeleteRow<K(==), R>(policy: DeletePolicy, table: map<K, R>, k: K): Option<map<K, R>> {
    match policy
    case Lenient => Some(table - {k})
    case Strict => if k in table then Some(table - {k}) else None
    case Unsupported => None
  }

  function UpsertRows<K(==), R>(sc: Schema<K, R>, table: map<K, R>, rs: seq<R>): map<K, R>
    decreases |rs|
  {
    if rs == [] then table
    else UpsertRows(sc, table, rs[..|rs| - 1])[sc.key(rs[|rs| - 1]) := rs[|rs| - 1]]
  }

  /** Deletes one more staged key, unless a step before it failed. */
  function DeleteNext<K(==), R>(
      sc: Schema<K, R>, policy: DeletePolicy, r: Result<map<K, R>, PushError>, d: string)
    : Result<map<K, R>, PushError>
  {
    match r
    case Err(e) => Err(e)
    case Ok(t) =>
      match sc.parse(d)
      case Err(e) => Err(BadKey(e))
      case Ok(k) =>
        match DeleteRow(policy, t, k)
        case None => Err(DeleteRejected)
        case Some(t') => Ok(t')
  }

  function DeleteRows<K(==), R>(
      sc: Schema<K, R>, policy: DeletePolicy, table: map<K, R>, dead: seq<string>): Result<map<K, R>, PushError>
    decreases |dead|
  {
    if dead == [] then Ok(table)
    else DeleteNext(sc, policy, DeleteRows(sc, policy, table, dead[..|dead| - 1]), dead[|dead| - 1])
  }

  /** One table of a push: upsert the live records, then delete the staged keys. */
  function PushTable<K(==), R>(
      sc: Schema<K, R>, policy: DeletePolicy, table: map<K, R>, s: Store<R>): Result<map<K, R>, PushError>
  {
    DeleteRows(sc, policy, UpsertRows(sc, table, s.records), s.dead)
  }

  /** The action of a store on a catalog table. */
  ghost function Act<K(!new), R(!new)>(table: map<K, R>, s: State<K, R>): map<K, R> {
    (table + s.live) - s.dead
  }

  lemma {:induction false} UpsertRowsRefines<K(!new), R(!new)>(sc: Schema<K, R>, table: map<K, R>, rs: seq<R>)
    ensures UpsertRows(sc, table, rs) == table + Live(sc, rs)
    decreases |rs|
  {
    if rs != [] { UpsertRowsRefines(sc, table, rs[..|rs| - 1]); }
  }

  /** Whether deleting a list of staged keys goes through. */
  ghost predicate Deletable<K(!new), R(!new)>(
      sc: Schema<K, R>, policy: DeletePolicy, table: map<K, R>, dead: seq<string>)
  {
    && AllParse(sc, dead)
    && (policy.Strict? ==> Dead(sc, dead) <= table.Keys)
    && (policy.Unsupported? ==> dead == [])
  }

  /** How deleting a list of staged keys comes out. */
  ghost predicate DeletesAs<K(!new), R(!new)>(
      sc: Schema<K, R>, policy: DeletePolicy, table: map<K, R>, dead: seq<string>, r: Result<map<K, R>, PushError>)
  {
    (r.Ok? <==> Deletable(sc, policy, table, dead)) && (r.Ok? ==> r.value == table - Dead(sc, dead))
  }

  lemma DeleteOneMore<K(!new), R(!new)>(
      sc: Schema<K, R>, policy: DeletePolicy, table: map<K, R>, init: seq<string>, d: string)
    requires sc.parse(d).Ok? && sc.parse(d).value !in Dead(sc, init) && Deletable(sc, policy, table, init)
    ensures var k := sc.parse(d).value;
            var r := DeleteRow(policy, table - Dead(sc, init), k);
            && (r.Some? <==> Deletable(sc, policy, table, init + [d]))
            && (r.Some? ==> r.value == table - Dead(sc, init + [d]))
  {
    DeadOfAppend(sc, init, d);
    assert forall x | x in init + [d] :: x in init || x == d;
  }

  lemma NotDeletableSooner<K(!new), R(!new)>(
      sc: Schema<K, R>, policy: DeletePolicy, table: map<K, R>, init: seq<string>, d: string)
    requires Deletable(sc, policy, table, init + [d])
    ensures Deletable(sc, policy, table, init) && sc.parse(d).Ok?
  {
    assert d in init + [d];
    forall x | x in init ensures sc.parse(x).Ok? { assert x in init + [d]; }
    DeadOfAppend(sc, init, d);
  }

  lemma {:induction false} DeleteRowsRefines<K(!new), R(!new)>(
      sc: Schema<K, R>, policy: DeletePolicy, table: map<K, R>, dead: seq<string>)
    requires Lawful(sc) && NoDuplicates(dead) && forall d | d in dead :: Printed(sc, d)
    ensures DeletesAs(sc, policy, table, dead, DeleteRows(sc, policy, table, dead))
    decreases |dead|
  {
    if dead != [] {
      var init, last := dead[..|dead| - 1], dead[|dead| - 1];
      assert dead == init + [last] && last !in init && NoDuplicates(init);
      DeleteRowsRefines(sc, policy, table, init);
      DeleteRowsStep(sc, policy, table, init, last, DeleteRows(sc, policy, table, init));
    }
  }

  lemma DeleteRowsStep<K(!new), R(!new)>(
      sc: Schema<K, R>, policy: DeletePolicy, table: map<K, R>, init: seq<string>, d: string,
      r: Result<map<K, R>, PushError>)
    requires Lawful(sc) && Printed(sc, d) && d !in init && forall x | x in init :: Printed(sc, x)
    requires DeletesAs(sc, policy, table, init, r)
    ensures DeletesAs(sc, policy, table, init + [d], DeleteNext(sc, policy, r, d))
  {
    if Deletable(sc, policy, table, init + [d]) { NotDeletableSooner(sc, policy, table, init, d); }
    if r.Ok? && sc.parse(d).Ok? {
      NotAmong(sc, init, d);
      DeleteOneMore(sc, policy, table, init, d);
    }
  }

  /** Different printed keys stand for different keys. */
  lemma NotAmong<K(!new), R(!new)>(sc: Schema<K, R>, dead: seq<string>, d: string)
    requires Lawful(sc) && Printed(sc, d) && sc.parse(d).Ok? && d !in dead
    requires forall x | x in dead :: Printed(sc, x)
    ensures sc.parse(d).value !in Dead(sc, dead)
  {
    ParsesBack(sc, d);
    forall x | x in dead && sc.parse(x).Ok? ensures sc.parse(x).value != sc.parse(d).value {
      ParsesBack(sc, x);
    }
  }

  /**
    A push of a table succeeds exactly when every staged key parses and, if the catalog is
    strict, is a row once the live records are written, and, if it deletes nothing, when
    nothing is staged.  It then acts as the law says.
  */
  lemma PushRefines<K(!new), R(!new)>(sc: Schema<K, R>, policy: DeletePolicy, table: map<K, R>, s: Store<R>)
    requires Lawful(sc) && ValidStore(sc, s)
    ensures var r := PushTable(sc, policy, table, s);
            && (r.Ok? <==> Deletable(sc, policy, table + Live(sc, s.records), s.dead))
            && (r.Ok? ==> r.value == Act(table, Abstract(sc, s)))
  {
    UpsertRowsRefines(sc, table, s.records);
    DeleteRowsRefines(sc, policy, table + Live(sc, s.records), s.dead);
  }

  /** A push that fails does so at the first staged key it cannot parse or may not delete, and says which it was. */
  lemma {:induction false} DeleteRowsFailsAt<K(!new), R(!new)>(
      sc: Schema<K, R>, policy: DeletePolicy, table: map<K, R>, dead: seq<string>) returns (i: nat)
    requires DeleteRows(sc, policy, table, dead).Err?
    ensures i < |dead| && DeleteRows(sc, policy, table, dead[..i]).Ok?
    ensures var rows := DeleteRows(sc, policy, table, dead[..i]).value;
            var error := DeleteRows(sc, policy, table, dead).error;
            match sc.parse(dead[i])
            case Err(e) => error == BadKey(e)
            case Ok(k) => error == DeleteRejected && (policy == Unsupported || (policy == Strict && k !in rows))
    decreases |dead|
  {
    var n := |dead| - 1;
    if DeleteRows(sc, policy, table, dead[..n]).Err? {
      i := DeleteRowsFailsAt(sc, policy, table, dead[..n]);
      assert dead[..n][..i] == dead[..i];
    } else {
      i := n;
    }
  }

  /** The action key by key: live records override rows, staged keys lose theirs. */
  lemma ActMeans<K(!new), R(!new)>(table: map<K, R>, s: State<K, R>, k: K)
    ensures var after := Act(table, s);
            && (k in after <==> (k in table || k in s.live) && k !in s.dead)
            && (k in after ==> after[k] == if k in s.live then s.live[k] else table[k])
  {
  }

  lemma ActOfCombine<K(!new), R(!new)>(table: map<K, R>, a: State<K, R>, b: State<K, R>)
    ensures Act(table, Combine(a, b)) == Act(Act(table, a), b)
  {
    var x, y := Act(table, Combine(a, b)), Act(Act(table, a), b);
    assert x.Keys == y.Keys;
    assert x == y;
  }

  /**
    Pushing a merged table gives what pushing the two tables in turn gives, whenever every
    step succeeds, even if a store holds a key both live and staged for deletion.
  */
  lemma PushAfterMerge<K(!new), R(!new)>(
      sc: Schema<K, R>, policy: DeletePolicy, table: map<K, R>, a: Store<R>, b: Store<R>)
    requires Lawful(sc) && ValidStore(sc, a) && ValidStore(sc, b)
    ensures var (m, err) := MergeStores(sc, a, b);
            var merged, first := PushTable(sc, policy, table, m), PushTable(sc, policy, table, a);
            err.None? && merged.Ok? && first.Ok? && PushTable(sc, policy, first.value, b).Ok? ==>
              merged.value == PushTable(sc, policy, first.value, b).value
  {
    var (m, err) := MergeStores(sc, a, b);
    MergeRefines(sc, a, b);
    PushRefines(sc, policy, table, m);
    PushRefines(sc, policy, table, a);
    var first := PushTable(sc, policy, table, a);
    if err.None? && first.Ok? {
      PushRefines(sc, policy, first.value, b);
      ActOfCombine(table, Abstract(sc, a), Abstract(sc, b));
    }
  }

  /** On a lenient catalog the steps succeed together: only parsing can fail, and it fails on both sides alike. */
  lemma LenientStepsSucceedTogether<K(!new), R(!new)>(sc: Schema<K, R>, table: map<K, R>, a: Store<R>, b: Store<R>)
    requires Lawful(sc) && ValidStore(sc, a) && ValidStore(sc, b) && AllParse(sc, a.dead) && AllParse(sc, b.dead)
    ensures var (m, err) := MergeStores(sc, a, b);
            var first := PushTable(sc, Lenient, table, a);
            && err.None? && first.Ok?
            && PushTable(sc, Lenient, table, m) == PushTable(sc, Lenient, first.value, b)
  {
    var m := MergeStores(sc, a, b).0;
    MergeRefines(sc, a, b);
    PushRefines(sc, Lenient, table, m);
    PushRefines(sc, Lenient, table, a);
    PushRefines(sc, Lenient, PushTable(sc, Lenient, table, a).value, b);
    PushAfterMerge(sc, Lenient, table, a, b);
  }

  /** Deletes a catalog can be asked for without failing, when the rows it then has are `keys`. */
  ghost predicate Accepts<K(!new), R(!new)>(sc: Schema<K, R>, policy: DeletePolicy, keys: set<K>, dead: seq<string>) {
    && (policy.Strict? ==> Dead(sc, dead) <= keys)
    && (policy.Unsupported? ==> dead == [])
  }

  lemma NothingStagedIff<K(!new), R(!new)>(sc: Schema<K, R>, dead: seq<string>)
    requires AllParse(sc, dead)
    ensures dead == [] <==> Dead(sc, dead) == {}
  {
    if dead != [] {
      assert dead[0] in dead;
      assert sc.parse(dead[0]).value in Dead(sc, dead);
    }
  }

  /** Which of two merged states' staged keys have rows, when those of the first have. */
  lemma StagedRowsOfCombine<K(!new), R(!new)>(keys: set<K>, a: State<K, R>, b: State<K, R>)
    requires a.dead <= keys + a.live.Keys
    ensures var m := Combine(a, b);
            && (m.dead <= keys + m.live.Keys <==> b.dead <= keys)
            && (a.dead == {} ==> (m.dead == {} <==> b.dead == {}))
  {
    var m := Combine(a, b);
    assert m.live.Keys == a.live.Keys + b.live.Keys - b.dead;
    if b.dead <= keys {
      forall k | k in m.dead ensures k in keys + m.live.Keys {}
    }
    if m.dead <= keys + m.live.Keys {
      forall k | k in b.dead ensures k in keys { assert k in m.dead; }
    }
  }

  /**
    After a first table has been pushed, the merge with a second goes through exactly when
    the catalog accepts the second's deletes on the rows it had before either push; pushing
    the second in turn goes through exactly when it accepts them on the rows it then has.
  */
  lemma MergedPushSucceedsIff<K(!new), R(!new)>(
      sc: Schema<K, R>, policy: DeletePolicy, table: map<K, R>, a: Store<R>, b: Store<R>)
    requires Lawful(sc) && ValidStore(sc, a) && ValidStore(sc, b) && AllParse(sc, b.dead)
    requires PushTable(sc, policy, table, a).Ok?
    ensures var first := PushTable(sc, policy, table, a).value;
            && MergeStores(sc, a, b).1.None?
            && (PushTable(sc, policy, table, MergeStores(sc, a, b).0).Ok? <==> Accepts(sc, policy, table.Keys, b.dead))
            && (PushTable(sc, policy, first, b).Ok? <==>
                  Accepts(sc, policy, first.Keys + Live(sc, b.records).Keys, b.dead))
  {
    var m := MergeStores(sc, a, b).0;
    MergeRefines(sc, a, b);
    PushRefines(sc, policy, table, a);
    PushRefines(sc, policy, table, m);
    PushRefines(sc, policy, PushTable(sc, policy, table, a).value, b);
    NothingStagedIff(sc, b.dead);
    NothingStagedIff(sc, m.dead);
    if !policy.Lenient? {
      NothingStagedIff(sc, a.dead);
      StagedRowsOfCombine(table.Keys, Abstract(sc, a), Abstract(sc, b));
    }
  }

  /**
    On a strict catalog each order can fail alone.  A key without a row before the pushes,
    live in the first table and staged by the second, stops the merged push only; a key with
    a row, staged by both and written by neither, stops the second of the two pushes only.
  */
  lemma StrictPushesDiffer<K(!new), R(!new)>(sc: Schema<K, R>, table: map<K, R>, a: Store<R>, b: Store<R>, k: K)
    requires Lawful(sc) && ValidStore(sc, a) && ValidStore(sc, b) && AllParse(sc, b.dead)
    requires PushTable(sc, Strict, table, a).Ok?
    requires k in Dead(sc, b.dead)
    ensures var first := PushTable(sc, Strict, table, a).value;
            var merged := PushTable(sc, Strict, table, MergeStores(sc, a, b).0);
            && (k !in table ==> merged.Err?)
            && (k in Dead(sc, a.dead) && k !in Live(sc, b.records) ==> PushTable(sc, Strict, first, b).Err?)
            && (Dead(sc, b.dead) == {k} && k in table ==> merged.Ok?)
            && (Dead(sc, b.dead) == {k} && k in Live(sc, a.records) && k !in Dead(sc, a.dead) ==>
                  PushTable(sc, Strict, first, b).Ok?)
  {
    MergedPushSucceedsIff(sc, Strict, table, a, b);
    PushRefines(sc, Strict, table, a);
  }

  /** For one such record, on an empty catalog: added by the first table, staged for deletion by the second. */
  lemma StrictPushAfterMergeCanFail<K(!new), R(!new)>(sc: Schema<K, R>, r: R)
    requires Lawful(sc) && sc.complete(sc.key(r)) && sc.parse(sc.print_(sc.key(r))).Ok?
    ensures var a, b := Store([r], []), Store([], [sc.print_(sc.key(r))]);
            var first := PushTable(sc, Strict, map[], a);
            && ValidStore(sc, a) && ValidStore(sc, b)
            && MergeStores(sc, a, b).1.None?
            && first.Ok? && PushTable(sc, Strict, first.value, b).Ok?
            && PushTable(sc, Strict, map[], MergeStores(sc, a, b).0).Err?
  {
    var k := sc.key(r);
    var a, b: Store<R> := Store([r], []), Store([], [sc.print_(k)]);
    assert Printed(sc, sc.print_(k));
    assert ValidStore(sc, a) && ValidStore(sc, b);
    ParsesBack(sc, sc.print_(k));
    PushRefines(sc, Strict, map[], a);
    assert a.records[..0] == [] && Live(sc, a.records) == map[k := r];
    assert sc.print_(k) in b.dead && Dead(sc, b.dead) == {k};
    StrictPushesDiffer(sc, map[], a, b, k);
    MergedPushSucceedsIff(sc, Strict, map[], a, b);
  }

  // ----- Loading -----

  /** Adds fetched rows to an empty store; a repeated or incomplete key stops the load. */
  function LoadRows<K, R>(sc: Schema<K, R>, rows: seq<R>): Option<Store<R>>
    decreases |rows|
  {
    if rows == [] then Some(Store([], []))
    else
      var r := rows[|rows| - 1];
      match LoadRows(sc, rows[..|rows| - 1])
      case None => None
      case Some(s) =>
        if IndexOf(sc, s.records, sc.key(r)) < |s.records| || !sc.complete(sc.key(r)) then None
        else Some(Upsert(sc, s, r))
  }

  /** A row that can still be added to those loaded. */
  lemma LoadOneMore<K(!new), R(!new)>(sc: Schema<K, R>, init: seq<R>, r: R)
    requires Lawful(sc) && DistinctKeys(sc, init) && Complete(sc, init)
    ensures IndexOf(sc, init, sc.key(r)) < |init| || !sc.complete(sc.key(r))
       <==> !(DistinctKeys(sc, init + [r]) && Complete(sc, init + [r]))
    ensures IndexOf(sc, init, sc.key(r)) == |init| ==> Upsert(sc, Store(init, []), r) == Store(init + [r], [])
  {
    var rows, i := init + [r], IndexOf(sc, init, sc.key(r));
    if i < |init| {
      assert sc.key(rows[i]) == sc.key(rows[|init|]);
    } else {
      assert forall j | 0 <= j < |init| :: sc.key(init[j]) != sc.key(r);
      assert sc.complete(sc.key(r)) <==> sc.complete(sc.key(rows[|init|]));
    }
  }

  /** Loading succeeds exactly on complete rows with distinct keys, and keeps them as they are. */
  lemma {:induction false} LoadSucceedsIff<K(!new), R(!new)>(sc: Schema<K, R>, rows: seq<R>)
    requires Lawful(sc)
    ensures LoadRows(sc, rows) == if DistinctKeys(sc, rows) && Complete(sc, rows) then Some(Store(rows, [])) else None
    decreases |rows|
  {
    if rows != [] {
      var init, r := rows[..|rows| - 1], rows[|rows| - 1];
      assert rows == init + [r];
      LoadSucceedsIff(sc, init);
      if DistinctKeys(sc, init) && Complete(sc, init) {
        LoadOneMore(sc, init, r);
      } else {
        assert DistinctKeys(sc, rows) && Complete(sc, rows) ==> DistinctKeys(sc, init) && Complete(sc, init);
      }
    }
  }

  /** A list of a table's rows, in any order. */
  ghost predicate Lists<K(!new), R(!new)>(sc: Schema<K, R>, rows: seq<R>, table: map<K, R>) {
    DistinctKeys(sc, rows) && Live(sc, rows) == table
  }

  ghost predicate TableComplete<K(!new), R(!new)>(sc: Schema<K, R>, table: map<K, R>) {
    forall k | k in table :: sc.complete(k) && sc.key(table[k]) == k
  }

  /** Loading a catalog table and pushing the result back leaves it as it was, on every kind of catalog. */
  lemma LoadThenPush<K(!new), R(!new)>(sc: Schema<K, R>, policy: DeletePolicy, table: map<K, R>, rows: seq<R>)
    requires Lawful(sc) && TableComplete(sc, table) && Lists(sc, rows, table)
    ensures LoadRows(sc, rows) == Some(Store(rows, []))
    ensures PushTable(sc, policy, table, Store(rows, [])) == Ok(table)
  {
    forall i | 0 <= i < |rows| ensures sc.complete(sc.key(rows[i])) {
      LiveIs(sc, rows, sc.key(rows[i]));
    }
    LoadSucceedsIff(sc, rows);
    UpsertRowsRefines(sc, table, rows);
    assert table + table == table;
  }

  /** Pushing a store to an empty catalog and loading gives its live records less its staged keys, none staged. */
  lemma PushThenLoad<K(!new), R(!new)>(sc: Schema<K, R>, policy: DeletePolicy, s: Store<R>, rows: seq<R>)
    requires Lawful(sc) && ValidStore(sc, s)
    requires PushTable(sc, policy, map[], s).Ok? && Lists(sc, rows, PushTable(sc, policy, map[], s).value)
    ensures LoadRows(sc, rows) == Some(Store(rows, []))
    ensures Abstract(sc, Store(rows, [])) == State(Live(sc, s.records) - Dead(sc, s.dead), {})
  {
    PushRefines(sc, policy, map[], s);
    var table := PushTable(sc, policy, map[], s).value;
    assert map[] + Live(sc, s.records) == Live(sc, s.records);
    forall i | 0 <= i < |rows| ensures sc.complete(sc.key(rows[i])) {
      LiveIs(sc, rows, sc.key(rows[i]));
      LiveIs(sc, s.records, sc.key(rows[i]));
    }
    LoadSucceedsIff(sc, rows);
  }
}
