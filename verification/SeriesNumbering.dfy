/** Series numbering: how the reports of repeated executions are ordered, over every history. */
module SeriesNumbering {
  import opened Prelude
  import opened Semantics

  /** The successful reports of every series carry orders 0, 1, 2, ... in log order. */
  ghost predicate Numbered<W(!new), V(!new)>(log: seq<Report<W, V>>) {
    forall w: W, id: string {:trigger SeriesReports(log, w, id)} :: NumberedIn(log, w, id)
  }

  ghost predicate NumberedIn<W(!new), V(!new)>(log: seq<Report<W, V>>, w: W, id: string) {
    var found := SeriesReports(log, w, id);
    forall i | 0 <= i < |found| :: InSeries(found[i], w, id) && found[i].series.value.order == i
  }

  lemma AppendedReport<W, V>(log: seq<Report<W, V>>, r: Report<W, V>, w: W, id: string)
    ensures SeriesReports(log + [r], w, id) == SeriesReports(log, w, id) + (if InSeries(r, w, id) then [r] else [])
  {
    assert (log + [r])[..|log|] == log;
  }

  lemma AppendKeepsNumbering<W(!new), V(!new)>(log: seq<Report<W, V>>, r: Report<W, V>)
    requires Numbered(log)
    requires r.series.Some? && r.err.None? ==>
               r.series.value.order == |SeriesReports(log, r.key.work, r.series.value.id)|
    ensures Numbered(log + [r])
  {
    forall w: W, id: string ensures NumberedIn(log + [r], w, id) {
      AppendedReport(log, r, w, id);
      assert NumberedIn(log, w, id);
    }
  }

  /** The loop keeps the numbering and only adds to the series. */
  lemma {:induction false} SeriesLoopKeepsNumbering<W(!new), V(!new)>(
      env: Environment<W, V>, a: Action<W>, remaining: nat, s: World<W, V>)
    requires a.OperationN? && Numbered(s.log)
    ensures var found := SeriesReports(s.log, a.work, a.seriesId);
            var s' := SeriesLoop(env, a, remaining, found, s).0;
            Numbered(s'.log) && found <= SeriesReports(s'.log, a.work, a.seriesId)
    decreases remaining
  {
    if remaining > 0 {
      var found := SeriesReports(s.log, a.work, a.seriesId);
      var s' := Attempt(env, a, Key(a.work, ""), Some(Series(a.seriesId, |found|)), s);
      var r := s'.log[|s.log|];
      AppendedReport(s.log, r, a.work, a.seriesId);
      AppendKeepsNumbering(s.log, r);
      if r.err.None? {
        SeriesLoopKeepsNumbering(env, a, remaining - 1, s');
      }
    }
  }

  /**
    A series loop started with the k reports found so far: on success it returns k plus
    `remaining` reports, which are then all the series holds, and starts the handler exactly
    `remaining` times; on failure every success before the failed attempt is kept.
  */
  lemma {:induction false} SeriesLoopNumbers<W(!new), V(!new)>(
      env: Environment<W, V>, a: Action<W>, remaining: nat, s: World<W, V>)
    requires a.OperationN?
    ensures var found := SeriesReports(s.log, a.work, a.seriesId);
            var (s', results, err) := SeriesLoop(env, a, remaining, found, s);
            var after := SeriesReports(s'.log, a.work, a.seriesId);
            if err.None? then
              results == after && |results| == |found| + remaining && |s'.trace| == |s.trace| + remaining
            else
              results == [] && |s'.trace| == |s.trace| + |after| - |found| + 1
    decreases remaining
  {
    if remaining > 0 {
      var found := SeriesReports(s.log, a.work, a.seriesId);
      var s' := Attempt(env, a, Key(a.work, ""), Some(Series(a.seriesId, |found|)), s);
      var r := s'.log[|s.log|];
      AppendedReport(s.log, r, a.work, a.seriesId);
      if r.err.None? {
        SeriesLoopNumbers(env, a, remaining - 1, s');
      }
    }
  }

  lemma OrdersOfPrefix<W(!new), V(!new)>(log: seq<Report<W, V>>, w: W, id: string, results: seq<Report<W, V>>)
    requires Numbered(log) && results <= SeriesReports(log, w, id)
    ensures forall i | 0 <= i < |results| :: results[i].series == Some(Series(id, i))
  {
    assert NumberedIn(log, w, id);
  }

  /**
    A call for n executions.  With k successful reports in the log it starts the handler
    max(0, n - k) times if it succeeds, and then returns n reports, the i-th with order i;
    if it fails, the successes before the failure stay recorded for the next call.
  */
  lemma ExecuteOperationNNumbers<W(!new), V(!new)>(env: Environment<W, V>, a: Action<W>, s: World<W, V>)
    requires a.OperationN? && Numbered(s.log)
    ensures var k := |SeriesReports(s.log, a.work, a.seriesId)|;
            var (s', results, err) := ExecuteOperationN(env, a, s);
            && Numbered(s'.log)
            && (err.None? ==>
                  && |results| == a.n
                  && (forall i | 0 <= i < a.n :: results[i].series == Some(Series(a.seriesId, i)))
                  && results <= SeriesReports(s'.log, a.work, a.seriesId)
                  && |s'.trace| == |s.trace| + (if k < a.n then a.n - k else 0))
            && (err.Some? ==>
                  && results == [] && k < a.n
                  && |s'.trace| == |s.trace| + |SeriesReports(s'.log, a.work, a.seriesId)| - k + 1)
  {
    var found := SeriesReports(s.log, a.work, a.seriesId);
    var (s', results, err) := ExecuteOperationN(env, a, s);
    if |found| == 0 || |found| < a.n {
      SeriesLoopKeepsNumbering(env, a, a.n - |found|, s);
      SeriesLoopNumbers(env, a, a.n - |found|, s);
    }
    if err.None? { OrdersOfPrefix(s'.log, a.work, a.seriesId, results); }
  }

  /** Numbering survives every call, whatever fails and however calls are nested. */
  lemma {:induction false} PerformKeepsNumbering<W(!new), V(!new)>(
      p: Program<W, V>, env: Environment<W, V>, a: Action<W>, s: World<W, V>)
    requires WellFounded(p) && Numbered(s.log)
    ensures Numbered(Perform(p, env, a, s).0.log)
    decreases Rank(p, a), 1, 0
  {
    match a
    case Operation(k, force) =>
      AppendKeepsNumbering(s.log, Attempt(env, a, k, None, s).log[|s.log|]);
    case OperationN(_, _, _) => ExecuteOperationNNumbers(env, a, s);
    case Sequence(k) =>
      if LatestSuccess(s.log, k).None? {
        var s0 := s.(trace := s.trace + [k]);
        HandlerKeepsNumbering(p, env, k, [], s0);
        var (s1, o) := RunHandler(p, env, k, [], s0);
        AppendKeepsNumbering(s1.log, Perform(p, env, a, s).0.log[|s1.log|]);
      }
    case Local(_) =>
  }

  lemma {:induction false} HandlerKeepsNumbering<W(!new), V(!new)>(
      p: Program<W, V>, env: Environment<W, V>, k: Key<W>, replies: seq<Reply<V>>, s: World<W, V>)
    requires WellFounded(p) && Numbered(s.log)
    ensures Numbered(RunHandler(p, env, k, replies, s).0.log)
    decreases 1 + p.rank(k), 0, p.width(k) - |replies|
  {
    match p.body(k, replies)
    case Return(_) =>
    case Invoke(a) =>
      PerformKeepsNumbering(p, env, a, s);
      var (s', reply) := Perform(p, env, a, s);
      HandlerKeepsNumbering(p, env, k, replies + [reply], s');
  }
}
