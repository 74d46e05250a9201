/**
  One data store table on values: a list of records and the printed keys staged for remote
  deletion.  The address, chain and contract stores are instances of a `Schema`.
*/
module Stores {
  import opened Prelude
  import opened Keys

  /** `same` is the equality the scans use, `complete` whether a key can be stored and printed. */
  datatype Schema<!K, !R> = Schema(
    key: R -> K,
    same: (K, K) -> bool,
    complete: K -> bool,
    print_: K -> string,
    parse: string -> Result<K, KeyError>)

  /** Scans compare keys by value, and a printed key parses to itself or not at all. */
  ghost predicate Lawful<K(!new), R(!new)>(sc: Schema<K, R>) {
    && (forall a, b {:trigger sc.same(a, b)} :: sc.same(a, b) <==> a == b)
    && (forall k {:trigger sc.print_(k)} :: sc.complete(k) ==>
          sc.parse(sc.print_(k)) == Ok(k) || sc.parse(sc.print_(k)).Err?)
    && (forall s {:trigger sc.parse(s)} :: sc.parse(s).Ok? ==> sc.complete(sc.parse(s).value))
  }

  datatype Store<+R> = Store(records: seq<R>, dead: seq<string>)

  /** Position of the record with this key, or the number of records. */
  function IndexOf<K, R>(sc: Schema<K, R>, records: seq<R>, k: K): (i: nat)
    ensures i <= |records|
    ensures i < |records| ==> sc.same(sc.key(records[i]), k)
    ensures forall j | 0 <= j < i :: !sc.same(sc.key(records[j]), k)
  {
    if records == [] then 0
    else if sc.same(sc.key(records[0]), k) then 0
    else 1 + IndexOf(sc, records[1..], k)
  }

  function RemoveFirst<T(==)>(s: seq<T>, x: T): seq<T> {
    if s == [] then [] else if s[0] == x then s[1..] else [s[0]] + RemoveFirst(s[1..], x)
  }

  function PutRecord<K, R>(sc: Schema<K, R>, records: seq<R>, r: R): seq<R> {
    var i := IndexOf(sc, records, sc.key(r));
    if i < |records| then records[i := r] else records + [r]
  }

  function DropRecord<K, R>(sc: Schema<K, R>, records: seq<R>, k: K): seq<R> {
    var i := IndexOf(sc, records, k);
    if i < |records| then records[..i] + records[i + 1..] else records
  }

  /** Writing a record clears its key from the staged deletions. */
  function Upsert<K, R>(sc: Schema<K, R>, s: Store<R>, r: R): Store<R> {
    Store(PutRecord(sc, s.records, r), RemoveFirst(s.dead, sc.print_(sc.key(r))))
  }

  function RemoteDelete<K, R>(sc: Schema<K, R>, s: Store<R>, k: K): Store<R> {
    if sc.print_(k) in s.dead then s else s.(dead := s.dead + [sc.print_(k)])
  }

  function UpsertAll<K, R>(sc: Schema<K, R>, s: Store<R>, rs: seq<R>): Store<R>
    decreases |rs|
  {
    if rs == [] then s else Upsert(sc, UpsertAll(sc, s, rs[..|rs| - 1]), rs[|rs| - 1])
  }

  /** Staging a deletion on a store also drops the record, present or not. */
  function StageDelete<K, R>(sc: Schema<K, R>, s: Store<R>, k: K): Store<R> {
    var staged := RemoteDelete(sc, s, k);
    staged.(records := DropRecord(sc, staged.records, k))
  }

  /** Staged deletions one by one; the first printed key that does not parse stops the run. */
  function StageAll<K, R>(sc: Schema<K, R>, s: Store<R>, dead: seq<string>): (Store<R>, Option<KeyError>)
    decreases |dead|
  {
    if dead == [] then (s, None)
    else
      var (s', err) := StageAll(sc, s, dead[..|dead| - 1]);
      if err.Some? then (s', err)
      else
        match sc.parse(dead[|dead| - 1])
        case Err(e) => (s', Some(e))
        case Ok(k) => (StageDelete(sc, s', k), None)
  }

  /** One table of a merge: the source's live records, then its staged deletions. */
  function MergeStores<K, R>(sc: Schema<K, R>, dst: Store<R>, src: Store<R>): (Store<R>, Option<KeyError>) {
    StageAll(sc, UpsertAll(sc, dst, src.records), src.dead)
  }

  // ----- What every reachable store looks like -----

  ghost predicate DistinctKeys<K, R>(sc: Schema<K, R>, records: seq<R>) {
    forall i, j | 0 <= i < j < |records| :: sc.key(records[i]) != sc.key(records[j])
  }

  ghost predicate Complete<K, R>(sc: Schema<K, R>, records: seq<R>) {
    forall i | 0 <= i < |records| :: sc.complete(sc.key(records[i]))
  }

  ghost predicate NoDuplicates<T>(s: seq<T>) {
    forall i, j | 0 <= i < j < |s| :: s[i] != s[j]
  }

  ghost predicate Printed<K(!new), R(!new)>(sc: Schema<K, R>, d: string) {
    exists k :: sc.complete(k) && sc.print_(k) == d
  }

  ghost predicate ValidStore<K(!new), R(!new)>(sc: Schema<K, R>, s: Store<R>) {
    && DistinctKeys(sc, s.records) && Complete(sc, s.records)
    && NoDuplicates(s.dead) && forall d | d in s.dead :: Printed(sc, d)
  }

  // ----- The abstract state: a map of live records and a set of keys staged for deletion -----

  ghost function Live<K(!new), R(!new)>(sc: Schema<K, R>, records: seq<R>): map<K, R> {
    if records == [] then map[]
    else Live(sc, records[..|records| - 1])[sc.key(records[|records| - 1]) := records[|records| - 1]]
  }

  ghost function Dead<K(!new), R(!new)>(sc: Schema<K, R>, dead: seq<string>): set<K> {
    set d | d in dead && sc.parse(d).Ok? :: sc.parse(d).value
  }

  ghost predicate AllParse<K(!new), R(!new)>(sc: Schema<K, R>, dead: seq<string>) {
    forall d | d in dead :: sc.parse(d).Ok?
  }

  datatype State<!K, +R> = State(live: map<K, R>, dead: set<K>)

  ghost function Abstract<K(!new), R(!new)>(sc: Schema<K, R>, s: Store<R>): State<K, R> {
    State(Live(sc, s.records), Dead(sc, s.dead))
  }

  /** The law of merging: the source's writes win over the destination, its staged deletions over both. */
  ghost function Combine<K(!new), R(!new)>(a: State<K, R>, b: State<K, R>): State<K, R> {
    State((a.live + b.live) - b.dead, (a.dead - b.live.Keys) + b.dead)
  }

  // ----- Steps on lists refine steps on maps and sets -----

  /** With distinct keys, the map holds exactly the records. */
  lemma {:induction false} LiveIs<K(!new), R(!new)>(sc: Schema<K, R>, records: seq<R>, k: K)
    requires DistinctKeys(sc, records)
    ensures k in Live(sc, records) <==> exists i :: 0 <= i < |records| && sc.key(records[i]) == k
    ensures forall i | 0 <= i < |records| && sc.key(records[i]) == k ::
              k in Live(sc, records) && Live(sc, records)[k] == records[i]
  {
    if records != [] {
      LiveIs(sc, records[..|records| - 1], k);
    }
  }

  /** A scan finds a key exactly when the map has it, and finds its record. */
  lemma IndexFindsLive<K(!new), R(!new)>(sc: Schema<K, R>, records: seq<R>, k: K)
    requires Lawful(sc) && DistinctKeys(sc, records)
    ensures var i := IndexOf(sc, records, k);
            (i < |records| <==> k in Live(sc, records)) && (i < |records| ==> Live(sc, records)[k] == records[i])
  {
    LiveIs(sc, records, k);
  }

  lemma {:induction false} LiveAfterReplace<K(!new), R(!new)>(sc: Schema<K, R>, records: seq<R>, i: nat, r: R)
    requires DistinctKeys(sc, records) && i < |records| && sc.key(records[i]) == sc.key(r)
    ensures Live(sc, records[i := r]) == Live(sc, records)[sc.key(r) := r]
  {
    var n := |records| - 1;
    var init := records[..n];
    if i < n {
      LiveAfterReplace(sc, init, i, r);
      assert records[i := r][..n] == init[i := r];
    } else {
      assert records[i := r][..n] == init;
    }
  }

  lemma {:induction false} LiveAfterRemove<K(!new), R(!new)>(sc: Schema<K, R>, records: seq<R>, i: nat)
    requires DistinctKeys(sc, records) && i < |records|
    ensures Live(sc, records[..i] + records[i + 1..]) == Live(sc, records) - {sc.key(records[i])}
  {
    var n := |records| - 1;
    var init := records[..n];
    var after := records[..i] + records[i + 1..];
    if i < n {
      LiveAfterRemove(sc, init, i);
      assert after[..n - 1] == init[..i] + init[i + 1..] && after[n - 1] == records[n];
    } else {
      assert after == init;
      LiveIs(sc, init, sc.key(records[n]));
    }
  }

  lemma PutRefines<K(!new), R(!new)>(sc: Schema<K, R>, records: seq<R>, r: R)
    requires Lawful(sc) && DistinctKeys(sc, records)
    ensures DistinctKeys(sc, PutRecord(sc, records, r))
    ensures Live(sc, PutRecord(sc, records, r)) == Live(sc, records)[sc.key(r) := r]
  {
    var i := IndexOf(sc, records, sc.key(r));
    if i < |records| {
      LiveAfterReplace(sc, records, i, r);
    } else {
      assert (records + [r])[..|records|] == records;
    }
  }

  lemma DropRefines<K(!new), R(!new)>(sc: Schema<K, R>, records: seq<R>, k: K)
    requires Lawful(sc) && DistinctKeys(sc, records)
    ensures DistinctKeys(sc, DropRecord(sc, records, k))
    ensures Live(sc, DropRecord(sc, records, k)) == Live(sc, records) - {k}
  {
    var i := IndexOf(sc, records, k);
    IndexFindsLive(sc, records, k);
    if i < |records| {
      LiveAfterRemove(sc, records, i);
    }
  }

  /** On a list without duplicates, removing the first occurrence removes the element. */
  lemma {:induction false} RemoveFirstRemoves<T>(s: seq<T>, x: T)
    requires NoDuplicates(s)
    ensures NoDuplicates(RemoveFirst(s, x))
    ensures forall y :: y in RemoveFirst(s, x) <==> y in s && y != x
    ensures |RemoveFirst(s, x)| <= |s|
  {
    if s != [] {
      assert s == [s[0]] + s[1..];
      if s[0] != x {
        RemoveFirstRemoves(s[1..], x);
        var r := RemoveFirst(s[1..], x);
        forall i, j | 0 <= i < j < |[s[0]] + r| ensures ([s[0]] + r)[i] != ([s[0]] + r)[j] {
          assert r[j - 1] in r;
        }
      }
    }
  }

  /** A printed key in the list stands for the key it was printed from. */
  lemma ParsesBack<K(!new), R(!new)>(sc: Schema<K, R>, d: string)
    requires Lawful(sc) && Printed(sc, d) && sc.parse(d).Ok?
    ensures sc.print_(sc.parse(d).value) == d
  {
    var k :| sc.complete(k) && sc.print_(k) == d;
  }

  /** A write keeps the store valid, maps the key to the record and cancels its staged deletion. */
  lemma UpsertRefines<K(!new), R(!new)>(sc: Schema<K, R>, s: Store<R>, r: R)
    requires Lawful(sc) && ValidStore(sc, s) && sc.complete(sc.key(r))
    ensures var s' := Upsert(sc, s, r);
            && ValidStore(sc, s')
            && Abstract(sc, s') == State(Live(sc, s.records)[sc.key(r) := r], Dead(sc, s.dead) - {sc.key(r)})
            && (AllParse(sc, s.dead) ==> AllParse(sc, s'.dead))
  {
    var k := sc.key(r);
    PutRefines(sc, s.records, r);
    RemoveFirstRemoves(s.dead, sc.print_(k));
    var after := RemoveFirst(s.dead, sc.print_(k));
    forall x ensures x in Dead(sc, after) <==> x in Dead(sc, s.dead) && x != k {
      if x in Dead(sc, s.dead) && x != k {
        var d :| d in s.dead && sc.parse(d).Ok? && sc.parse(d).value == x;
        ParsesBack(sc, d);
        assert d in after;
      }
      if x in Dead(sc, after) {
        var d :| d in after && sc.parse(d).Ok? && sc.parse(d).value == x;
        ParsesBack(sc, d);
      }
    }
  }

  lemma RemoteDeleteRefines<K(!new), R(!new)>(sc: Schema<K, R>, s: Store<R>, k: K)
    requires Lawful(sc) && ValidStore(sc, s) && sc.complete(k)
    ensures var s' := RemoteDelete(sc, s, k);
            && ValidStore(sc, s') && s'.records == s.records
            && Dead(sc, s'.dead) == Dead(sc, s.dead) + (if sc.parse(sc.print_(k)).Ok? then {k} else {})
            && s'.dead == s.dead + (if sc.print_(k) in s.dead then [] else [sc.print_(k)])
            && (forall d :: d in s'.dead <==> d in s.dead || d == sc.print_(k))
  {
    assert Printed(sc, sc.print_(k));
  }

  lemma StageDeleteRefines<K(!new), R(!new)>(sc: Schema<K, R>, s: Store<R>, d: string)
    requires Lawful(sc) && ValidStore(sc, s) && Printed(sc, d) && sc.parse(d).Ok?
    ensures var k := sc.parse(d).value;
            var s' := StageDelete(sc, s, k);
            && ValidStore(sc, s')
            && Abstract(sc, s') == State(Live(sc, s.records) - {k}, Dead(sc, s.dead) + {k})
            && (AllParse(sc, s.dead) ==> AllParse(sc, s'.dead))
  {
    var k := sc.parse(d).value;
    ParsesBack(sc, d);
    RemoteDeleteRefines(sc, s, k);
    DropRefines(sc, s.records, k);
    DropKeepsComplete(sc, s.records, k);
  }

  lemma DropKeepsComplete<K, R>(sc: Schema<K, R>, records: seq<R>, k: K)
    requires Complete(sc, records)
    ensures Complete(sc, DropRecord(sc, records, k))
  {
  }

  /** What upserting a list of records does. */
  ghost predicate Upserted<K(!new), R(!new)>(sc: Schema<K, R>, s: Store<R>, rs: seq<R>, s': Store<R>) {
    && ValidStore(sc, s')
    && Abstract(sc, s') == State(Live(sc, s.records) + Live(sc, rs), Dead(sc, s.dead) - Live(sc, rs).Keys)
    && (AllParse(sc, s.dead) ==> AllParse(sc, s'.dead))
  }

  lemma WriteAfterWrites<K(!new), R(!new)>(live: map<K, R>, dead: set<K>, written: map<K, R>, k: K, r: R)
    ensures (live + written)[k := r] == live + written[k := r]
    ensures dead - written.Keys - {k} == dead - written[k := r].Keys
  {
  }

  lemma UpsertOneMore<K(!new), R(!new)>(sc: Schema<K, R>, s: Store<R>, rs: seq<R>, s': Store<R>)
    requires Lawful(sc) && rs != [] && Upserted(sc, s, rs[..|rs| - 1], s') && sc.complete(sc.key(rs[|rs| - 1]))
    ensures Upserted(sc, s, rs, Upsert(sc, s', rs[|rs| - 1]))
  {
    var init, last := rs[..|rs| - 1], rs[|rs| - 1];
    UpsertRefines(sc, s', last);
    WriteAfterWrites(Live(sc, s.records), Dead(sc, s.dead), Live(sc, init), sc.key(last), last);
  }

  lemma {:induction false} UpsertAllRefines<K(!new), R(!new)>(sc: Schema<K, R>, s: Store<R>, rs: seq<R>)
    requires Lawful(sc) && ValidStore(sc, s) && Complete(sc, rs)
    ensures Upserted(sc, s, rs, UpsertAll(sc, s, rs))
    decreases |rs|
  {
    if rs != [] {
      UpsertAllRefines(sc, s, rs[..|rs| - 1]);
      UpsertOneMore(sc, s, rs, UpsertAll(sc, s, rs[..|rs| - 1]));
    }
  }

  /** What staging a list of deletions does when all of them parse. */
  ghost predicate Staged<K(!new), R(!new)>(sc: Schema<K, R>, s: Store<R>, dead: seq<string>, s': Store<R>) {
    && Abstract(sc, s') == State(Live(sc, s.records) - Dead(sc, dead), Dead(sc, s.dead) + Dead(sc, dead))
    && (AllParse(sc, s.dead) ==> AllParse(sc, s'.dead))
  }

  lemma StageOneMore<K(!new), R(!new)>(sc: Schema<K, R>, s: Store<R>, init: seq<string>, d: string, s': Store<R>)
    requires Lawful(sc) && ValidStore(sc, s') && Printed(sc, d) && sc.parse(d).Ok? && Staged(sc, s, init, s')
    ensures var s'' := StageDelete(sc, s', sc.parse(d).value);
            ValidStore(sc, s'') && Staged(sc, s, init + [d], s'')
  {
    StageDeleteRefines(sc, s', d);
    DeadOfAppend(sc, init, d);
  }

  lemma {:induction false} StageAllRefines<K(!new), R(!new)>(sc: Schema<K, R>, s: Store<R>, dead: seq<string>)
    requires Lawful(sc) && ValidStore(sc, s) && forall d | d in dead :: Printed(sc, d)
    ensures var (s', err) := StageAll(sc, s, dead);
            ValidStore(sc, s') && (err.None? <==> AllParse(sc, dead)) && (err.None? ==> Staged(sc, s, dead, s'))
    decreases |dead|
  {
    if dead != [] {
      var init, last := dead[..|dead| - 1], dead[|dead| - 1];
      assert dead == init + [last];
      StageAllRefines(sc, s, init);
      var (s', err) := StageAll(sc, s, init);
      if err.None? && sc.parse(last).Ok? {
        StageOneMore(sc, s, init, last, s');
      }
    }
  }

  lemma DeadOfAppend<K(!new), R(!new)>(sc: Schema<K, R>, dead: seq<string>, d: string)
    requires sc.parse(d).Ok?
    ensures Dead(sc, dead + [d]) == Dead(sc, dead) + {sc.parse(d).value}
  {
    var k := sc.parse(d).value;
    assert d in dead + [d];
  }

  /**
    Merging lists refines the law on maps and sets.  It fails exactly when some staged key
    of the source does not parse, and even then leaves a valid store.
  */
  lemma MergeRefines<K(!new), R(!new)>(sc: Schema<K, R>, dst: Store<R>, src: Store<R>)
    requires Lawful(sc) && ValidStore(sc, dst) && ValidStore(sc, src)
    ensures var (s', err) := MergeStores(sc, dst, src);
            && ValidStore(sc, s')
            && (err.None? <==> AllParse(sc, src.dead))
            && (err.None? ==> Abstract(sc, s') == Combine(Abstract(sc, dst), Abstract(sc, src)))
            && (err.None? && AllParse(sc, dst.dead) ==> AllParse(sc, s'.dead))
  {
    UpsertAllRefines(sc, dst, src.records);
    StageAllRefines(sc, UpsertAll(sc, dst, src.records), src.dead);
  }

  // ----- Places in the list -----

  /** Writing a key that is there replaces its record where it stands; a new key goes to the end. */
  lemma PutKeepsPlaces<K(!new), R(!new)>(sc: Schema<K, R>, records: seq<R>, r: R)
    requires Lawful(sc) && DistinctKeys(sc, records)
    ensures var after, k := PutRecord(sc, records, r), sc.key(r);
            if exists i :: 0 <= i < |records| && sc.key(records[i]) == k then
              |after| == |records|
              && forall i | 0 <= i < |records| :: after[i] == if sc.key(records[i]) == k then r else records[i]
            else after == records + [r]
  {
    var i := IndexOf(sc, records, sc.key(r));
    if i < |records| {
      assert sc.key(records[i]) == sc.key(r);
    } else {
      assert forall j | 0 <= j < |records| :: sc.key(records[j]) != sc.key(r);
    }
  }

  /** Dropping a key closes the gap and moves nothing else. */
  lemma DropKeepsPlaces<K(!new), R(!new)>(sc: Schema<K, R>, before: seq<R>, r: R, after: seq<R>, k: K)
    requires Lawful(sc) && DistinctKeys(sc, before + [r] + after)
    ensures DropRecord(sc, before + [r] + after, sc.key(r)) == before + after
    ensures (forall x | x in before + [r] + after :: sc.key(x) != k) ==>
              DropRecord(sc, before + [r] + after, k) == before + [r] + after
  {
    var all := before + [r] + after;
    var i := IndexOf(sc, all, sc.key(r));
    assert all[|before|] == r;
    assert i == |before|;
    assert all[..i] == before && all[i + 1..] == after;
    var j := IndexOf(sc, all, k);
    if j < |all| { assert all[j] in all; }
  }

  /** The records of a list whose keys a table does not have, in their order. */
  function Missing<K(==), R>(sc: Schema<K, R>, records: seq<R>, rs: seq<R>): seq<R> {
    if rs == [] then []
    else
      (if exists i :: 0 <= i < |records| && sc.key(records[i]) == sc.key(rs[0]) then [] else [rs[0]])
      + Missing(sc, records, rs[1..])
  }

  lemma {:induction false} MissingLast<K(!new), R(!new)>(sc: Schema<K, R>, records: seq<R>, rs: seq<R>)
    requires rs != []
    ensures var last := rs[|rs| - 1];
            Missing(sc, records, rs) == Missing(sc, records, rs[..|rs| - 1])
              + (if exists i :: 0 <= i < |records| && sc.key(records[i]) == sc.key(last) then [] else [last])
    ensures forall x | x in Missing(sc, records, rs) :: x in rs
  {
    if |rs| == 1 {
      assert rs[..0] == [] && rs[1..] == [];
    } else {
      MissingLast(sc, records, rs[1..]);
      assert rs[1..][..|rs| - 2] == rs[..|rs| - 1][1..];
    }
  }

  /** What writing a list of records does to places: those there stay where they are, the new ones follow in order. */
  ghost predicate InPlace<K(!new), R(!new)>(sc: Schema<K, R>, records: seq<R>, rs: seq<R>, after: seq<R>) {
    && |records| <= |after|
    && (forall i | 0 <= i < |records| :: sc.key(after[i]) == sc.key(records[i]))
    && after[|records|..] == Missing(sc, records, rs)
  }

  lemma InPlaceOneMore<K(!new), R(!new)>(sc: Schema<K, R>, records: seq<R>, rs: seq<R>, after: seq<R>)
    requires Lawful(sc) && rs != [] && DistinctKeys(sc, rs) && DistinctKeys(sc, after)
    requires InPlace(sc, records, rs[..|rs| - 1], after)
    ensures InPlace(sc, records, rs, PutRecord(sc, after, rs[|rs| - 1]))
  {
    var init, last := rs[..|rs| - 1], rs[|rs| - 1];
    MissingLast(sc, records, rs);
    PutKeepsPlaces(sc, after, last);
    forall x | |records| <= x < |after| ensures sc.key(after[x]) != sc.key(last) {
      assert after[|records|..][x - |records|] in Missing(sc, records, init);
      if init != [] { MissingLast(sc, records, init); }
      var y :| 0 <= y < |init| && init[y] == after[x];
      assert rs[y] == after[x];
    }
    var i := IndexOf(sc, after, sc.key(last));
    if i < |after| {
      assert i < |records| && sc.key(records[i]) == sc.key(last);
      assert PutRecord(sc, after, last)[|records|..] == after[|records|..];
    } else {
      assert forall j | 0 <= j < |records| :: sc.key(after[j]) != sc.key(last);
      assert (after + [last])[|records|..] == after[|records|..] + [last];
    }
  }

  lemma {:induction false} UpsertAllKeepsPlaces<K(!new), R(!new)>(sc: Schema<K, R>, s: Store<R>, rs: seq<R>)
    requires Lawful(sc) && ValidStore(sc, s) && Complete(sc, rs) && DistinctKeys(sc, rs)
    ensures InPlace(sc, s.records, rs, UpsertAll(sc, s, rs).records)
    decreases |rs|
  {
    if rs == [] {
      assert s.records[|s.records|..] == [];
    } else {
      UpsertAllKeepsPlaces(sc, s, rs[..|rs| - 1]);
      UpsertAllRefines(sc, s, rs[..|rs| - 1]);
      InPlaceOneMore(sc, s.records, rs, UpsertAll(sc, s, rs[..|rs| - 1]).records);
    }
  }

  // ----- The law of merging -----

  /** The law key by key: what is live afterwards, with which record, and what is staged. */
  lemma CombineMeans<K(!new), R(!new)>(a: State<K, R>, b: State<K, R>, k: K)
    ensures var c := Combine(a, b);
            && (k in c.live <==> (k in a.live || k in b.live) && k !in b.dead)
            && (k in c.live ==> c.live[k] == if k in b.live then b.live[k] else a.live[k])
            && (k in c.dead <==> (k in a.dead && k !in b.live) || k in b.dead)
  {
  }

  lemma CombineIsAssociative<K(!new), R(!new)>(a: State<K, R>, b: State<K, R>, c: State<K, R>)
    ensures Combine(Combine(a, b), c) == Combine(a, Combine(b, c))
  {
    var x, y := Combine(Combine(a, b), c), Combine(a, Combine(b, c));
    assert x.live.Keys == y.live.Keys;
    assert x.live == y.live;
    assert x.dead == y.dead;
  }

  lemma CombineIsIdempotent<K(!new), R(!new)>(a: State<K, R>, b: State<K, R>)
    ensures Combine(Combine(a, b), b) == Combine(a, b)
  {
    var x, y := Combine(Combine(a, b), b), Combine(a, b);
    assert x.live.Keys == y.live.Keys;
    assert x.live == y.live;
    assert x.dead == y.dead;
  }

  /** No key is both live and staged for deletion. */
  ghost predicate Settled<K(!new), R(!new)>(a: State<K, R>) {
    a.live.Keys !! a.dead
  }

  /**
    Merging an empty source changes nothing.  Merging into an empty destination gives the
    source exactly when the source is settled, and merges of settled states are settled; so
    settled states are a monoid and no larger set of states is.
  */
  lemma EmptyIsUnitIffSettled<K(!new), R(!new)>(a: State<K, R>, b: State<K, R>)
    ensures Combine(a, State(map[], {})) == a
    ensures Combine(State(map[], {}), a) == a <==> Settled(a)
    ensures Settled(a) && Settled(b) ==> Settled(Combine(a, b))
  {
    assert Combine(a, State(map[], {})).live == a.live;
    var x := Combine(State(map[], {}), a);
    assert x.live == a.live - a.dead && x.dead == a.dead;
    assert x.live.Keys == a.live.Keys - a.dead;
  }

  /** Both groupings of two merges succeed and agree on live records and staged keys. */
  lemma MergeIsAssociative<K(!new), R(!new)>(sc: Schema<K, R>, a: Store<R>, b: Store<R>, c: Store<R>)
    requires Lawful(sc) && ValidStore(sc, a) && ValidStore(sc, b) && ValidStore(sc, c)
    requires AllParse(sc, b.dead) && AllParse(sc, c.dead)
    ensures var (ab, e1) := MergeStores(sc, a, b);
            var (bc, e2) := MergeStores(sc, b, c);
            && e1.None? && e2.None?
            && MergeStores(sc, ab, c).1.None? && MergeStores(sc, a, bc).1.None?
            && Abstract(sc, MergeStores(sc, ab, c).0) == Abstract(sc, MergeStores(sc, a, bc).0)
  {
    MergeRefines(sc, a, b);
    MergeRefines(sc, b, c);
    MergeRefines(sc, MergeStores(sc, a, b).0, c);
    MergeRefines(sc, a, MergeStores(sc, b, c).0);
    CombineIsAssociative(Abstract(sc, a), Abstract(sc, b), Abstract(sc, c));
  }

  /** Merging a source a second time succeeds and changes neither live records nor staged keys. */
  lemma MergeIsIdempotent<K(!new), R(!new)>(sc: Schema<K, R>, a: Store<R>, b: Store<R>)
    requires Lawful(sc) && ValidStore(sc, a) && ValidStore(sc, b) && AllParse(sc, b.dead)
    ensures var (ab, e) := MergeStores(sc, a, b);
            && e.None? && MergeStores(sc, ab, b).1.None?
            && Abstract(sc, MergeStores(sc, ab, b).0) == Abstract(sc, ab)
  {
    MergeRefines(sc, a, b);
    MergeRefines(sc, MergeStores(sc, a, b).0, b);
    CombineIsIdempotent(Abstract(sc, a), Abstract(sc, b));
  }

  // ----- A table merged into itself -----

  /** The staged keys are read after the writes, which have cancelled those of live records. */
  function MergeWithSelf<K, R>(sc: Schema<K, R>, s: Store<R>): (Store<R>, Option<KeyError>) {
    var written := UpsertAll(sc, s, s.records);
    StageAll(sc, written, written.dead)
  }

  /**
    So a table merged into itself keeps its live records and cancels their staged deletions,
    where a copy of it would delete them: the two agree exactly on settled tables.
  */
  lemma MergeWithSelfRefines<K(!new), R(!new)>(sc: Schema<K, R>, s: Store<R>)
    requires Lawful(sc) && ValidStore(sc, s) && AllParse(sc, s.dead)
    ensures var (own, e1) := MergeWithSelf(sc, s);
            var (copy, e2) := MergeStores(sc, s, s);
            && e1.None? && e2.None? && ValidStore(sc, own)
            && Abstract(sc, own) == State(Live(sc, s.records), Dead(sc, s.dead) - Live(sc, s.records).Keys)
            && (Abstract(sc, own) == Abstract(sc, copy) <==> Settled(Abstract(sc, s)))
  {
    var live, dead := Live(sc, s.records), Dead(sc, s.dead);
    var written := UpsertAll(sc, s, s.records);
    UpsertAllRefines(sc, s, s.records);
    StageAllRefines(sc, written, written.dead);
    assert live + live == live && live - (dead - live.Keys) == live;
    MergeRefines(sc, s, s);
    assert Combine(State(live, dead), State(live, dead)) == State(live - dead, dead) by {
      assert dead - live.Keys + dead == dead;
    }
    if live.Keys !! dead { assert live - dead == live; }
    assert (live - dead).Keys == live.Keys - dead;
  }
}
