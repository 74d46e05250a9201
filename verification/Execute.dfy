/**
  The operations API as it runs: methods over reporters, a hash cache and the outside
  world, each proved to change the log exactly as module Semantics says.
*/
module Execute {
  import opened Prelude
  import opened Semantics
  import opened ReportGraph
  import opened SeriesNumbering
  import opened History
  import opened Reporters
  import opened Transcripts
  import opened AtMostOnce
  import opened Hashing

  /** The parts of a run that are not in the reporter: fresh ids, the outside world, the record of handler starts. */
  class Session<!W(!new), !V(!new)> {
    const env: Environment<W, V>
    var next: nat
    var clock: nat
    var trace: seq<Key<W>>

    constructor (env: Environment<W, V>)
      ensures this.env == env && next == clock == 0 && trace == []
    {
      this.env, next, clock, trace := env, 0, 0, [];
    }

    /** Starts the handler of an operation for `k`. */
    method Run(a: Action<W>, k: Key<W>) returns (o: Outcome<V>)
      modifies this
      ensures o == env(old(clock), a)
      ensures clock == old(clock) + 1 && trace == old(trace) + [k] && next == old(next)
    {
      o := env(clock, a);
      clock, trace := clock + 1, trace + [k];
    }

    /** A report with a fresh id. */
    method NewReport(k: Key<W>, o: Outcome<V>, children: seq<nat>, series: Option<Series>) returns (r: Report<W, V>)
      modifies this`next
      ensures r == Report(old(next), k, o.out, o.err, children, series) && next == old(next) + 1
    {
      r := Report(next, k, o.out, o.err, children, series);
      next := next + 1;
    }
  }

  datatype Bundle<!W(!new), !V(!new)> = Bundle(reporter: Reporter<W, V>, session: Session<W, V>, cache: HashCache<W>)

  ghost function Frame<W(!new), V(!new)>(b: Bundle<W, V>): set<object> {
    Footprint(b.reporter) + {b.session, b.cache}
  }

  ghost function Log<W(!new), V(!new)>(b: Bundle<W, V>): seq<Report<W, V>>
    reads Base(b.reporter)
  {
    Base(b.reporter).reports
  }

  ghost function Now<W(!new), V(!new)>(b: Bundle<W, V>): World<W, V>
    reads Base(b.reporter), b.session
  {
    World(Log(b), b.session.next, b.session.clock, b.session.trace)
  }

  /** Hashes tell calls apart, which module Hashing proves of the key bytes. */
  ghost predicate HashesTellApart<W(!new)>(c: HashCache<W>) {
    forall v: W, w: W, i: string, k: string {:trigger c.keyOf(v, i), c.keyOf(w, k)} ::
      c.sha256(c.keyOf(v, i)) == c.sha256(c.keyOf(w, k)) ==> v == w && i == k
  }

  /** The parts are separate, and the log is one the engine could have built. */
  ghost predicate ValidBundle<W(!new), V(!new)>(b: Bundle<W, V>)
    reads Frame(b), Base(b.reporter)
  {
    && Base(b.reporter) in Footprint(b.reporter)
    && b.session !in Footprint(b.reporter) && b.cache !in Footprint(b.reporter)
    && ValidReporter(b.reporter)
    && b.cache.Valid() && HashesTellApart(b.cache)
    && WellShaped(Log(b), b.session.next) && Numbered(Log(b))
  }

  /** Key bytes of calls on canonical input, under a collision-free digest, do tell calls apart. */
  lemma CanonicalHashesTellApart(c: HashCache<CanonicalWork>)
    requires c.keyOf == CanonicalKey && Injective(c.sha256)
    ensures HashesTellApart(c)
  {
    forall v: CanonicalWork, w: CanonicalWork, i: string, k: string
      | c.sha256(c.keyOf(v, i)) == c.sha256(c.keyOf(w, k))
      ensures v == w && i == k
    {
      CanonicalKeyIsInjective(v, w, i, k);
    }
  }

  /** A first bundle: an empty log, an empty memo table, and calls on canonical input. */
  method NewBundle<V(!new)>(
      env: Environment<CanonicalWork, V>, sha256: string -> string) returns (b: Bundle<CanonicalWork, V>)
    requires Injective(sha256)
    ensures ValidBundle(b) && fresh(Frame(b))
    ensures b.session.env == env && Now(b) == World([], 0, 0, [])
  {
    var reporter := new MemoryReporter<CanonicalWork, V>([]);
    var session := new Session<CanonicalWork, V>(env);
    var cache := new HashCache<CanonicalWork>(CanonicalKey, sha256);
    b := Bundle(Memory(reporter), session, cache);
    CanonicalHashesTellApart(cache);
    forall w: CanonicalWork, id: string ensures NumberedIn(Log(b), w, id) {}
  }

  /** Scans the log from its end for a successful report with the hash of this call. */
  method LoadPreviousSuccessfulReport<W(!new), V(!new)>(b: Bundle<W, V>, k: Key<W>) returns (r: Option<Report<W, V>>)
    requires ValidBundle(b)
    modifies b.cache
    ensures b.cache.Valid()
    ensures r == LatestSuccess(Log(b), k)
  {
    var prevReports := GetReports(b.reporter);
    var currentHash := b.cache.ConstructUniqueHashFrom(k.work, k.idem);
    assert prevReports[..|prevReports|] == prevReports;
    var i := |prevReports|;
    while i > 0
      invariant 0 <= i <= |prevReports| && b.cache.Valid()
      invariant prevReports == Log(b)
      invariant LatestSuccess(Log(b), k) == LatestSuccess(prevReports[..i], k)
    {
      i := i - 1;
      var report := prevReports[i];
      assert prevReports[..i + 1][..i] == prevReports[..i];
      var reportHash := b.cache.ConstructUniqueHashFrom(report.key.work, report.key.idem);
      if reportHash == currentHash && report.err.None? {
        return Some(report);
      }
    }
    return None;
  }

  /** Keeps the reports of a series: those with its id and the hash of its call, idempotency key aside. */
  method ScanSeries<W(!new), V(!new)>(c: HashCache<W>, prevReports: seq<Report<W, V>>, w: W, seriesId: string)
    returns (found: seq<Report<W, V>>)
    requires c.Valid() && HashesTellApart(c)
    modifies c
    ensures c.Valid() && found == SeriesReports(prevReports, w, seriesId)
  {
    var currentHash := c.ConstructUniqueHashFrom(w, "");
    found := [];
    for i := 0 to |prevReports|
      invariant c.Valid() && found == SeriesReports(prevReports[..i], w, seriesId)
    {
      var report := prevReports[i];
      assert prevReports[..i + 1] == prevReports[..i] + [report];
      AppendedReport(prevReports[..i], report, w, seriesId);
      if report.series.Some? && report.series.value.id == seriesId {
        var reportHash := c.ConstructUniqueHashFrom(report.key.work, "");
        if reportHash == currentHash && report.err.None? {
          found := found + [report];
        }
      }
    }
    assert prevReports[..|prevReports|] == prevReports;
  }

  /**
    Files each report under its order.  On a numbered log every index is in bounds, every
    slot gets its report, and the result is the list itself.
  */
  method FileByOrder<W(!new), V(!new)>(log: seq<Report<W, V>>, w: W, seriesId: string, found: seq<Report<W, V>>)
    returns (results: seq<Report<W, V>>)
    requires Numbered(log) && found == SeriesReports(log, w, seriesId) && found != []
    ensures results == SeriesReports(log, w, seriesId)
  {
    assert NumberedIn(log, w, seriesId);
    var slots := new Report<W, V>[|found|](_ => found[0]);
    for i := 0 to |found|
      invariant forall j | 0 <= j < i :: slots[j] == found[j]
    {
      slots[found[i].series.value.order] := found[i];
    }
    return slots[..];
  }

  method LoadSuccessfulExecutionSeriesReports<W(!new), V(!new)>(b: Bundle<W, V>, w: W, seriesId: string)
    returns (results: seq<Report<W, V>>, ok: bool)
    requires ValidBundle(b)
    modifies b.cache
    ensures b.cache.Valid()
    ensures results == SeriesReports(Log(b), w, seriesId)
    ensures ok <==> results != []
  {
    var prevReports := GetReports(b.reporter);
    var found := ScanSeries(b.cache, prevReports, w, seriesId);
    if found == [] { return [], false; }
    results := FileByOrder(prevReports, w, seriesId, found);
    ok := true;
  }

  /** Runs an operation's handler once and records its report. */
  method RunAndRecord<W(!new), V(!new)>(
      b: Bundle<W, V>, a: Action<W>, k: Key<W>, series: Option<Series>) returns (r: Report<W, V>)
    requires ValidBundle(b)
    requires series.Some? ==> series.value.order == |SeriesReports(Log(b), k.work, series.value.id)|
    modifies Frame(b)
    ensures ValidBundle(b)
    ensures Now(b) == Attempt(b.session.env, a, k, series, old(Now(b)))
    ensures Log(b) == old(Log(b)) + [r]
  {
    ghost var before := Now(b);
    var o := b.session.Run(a, k);
    r := b.session.NewReport(k, o, [], series);
    Add(b.reporter, r);
    AttemptKeepsShape(b.session.env, a, k, series, before, |before.log|);
    AppendKeepsNumbering(before.log, r);
  }

  method ExecuteOperation<W(!new), V(!new)>(b: Bundle<W, V>, k: Key<W>, force: bool) returns (r: Report<W, V>)
    requires ValidBundle(b)
    modifies Frame(b)
    ensures ValidBundle(b)
    ensures (Now(b), r) == Semantics.ExecuteOperation(b.session.env, k, force, old(Now(b)))
    ensures if !force && LatestSuccess(old(Log(b)), k).Some? then
              Now(b) == old(Now(b)) && Some(r) == LatestSuccess(Log(b), k)
            else
              Log(b) == old(Log(b)) + [r] && Attempted(b.session.env, Operation(k, force), k, None, old(Now(b)), Now(b))
  {
    if !force {
      var previous := LoadPreviousSuccessfulReport(b, k);
      if previous.Some? { return previous.value; }
    }
    r := RunAndRecord(b, Operation(k, force), k, None);
  }

  /** One turn of the series loop: the handler runs once and its report takes the next order. */
  method RunNext<W(!new), V(!new)>(b: Bundle<W, V>, work: W, seriesId: string, n: nat, order: nat,
                                   ghost results: seq<Report<W, V>>, ghost remaining: nat)
    returns (report: Report<W, V>)
    requires ValidBundle(b) && remaining > 0
    requires results == SeriesReports(Log(b), work, seriesId) && order == |results|
    modifies Frame(b)
    ensures ValidBundle(b)
    ensures report.err.None? ==> SeriesReports(Log(b), work, seriesId) == results + [report]
    ensures SeriesLoop(b.session.env, OperationN(work, seriesId, n), remaining, results, old(Now(b)))
         == if report.err.Some? then (Now(b), [], report.err)
            else SeriesLoop(b.session.env, OperationN(work, seriesId, n), remaining - 1, results + [report], Now(b))
  {
    ghost var before := Log(b);
    report := RunAndRecord(b, OperationN(work, seriesId, n), Key(work, ""), Some(Series(seriesId, order)));
    AppendedReport(before, report, work, seriesId);
  }

  method ExecuteOperationN<W(!new), V(!new)>(b: Bundle<W, V>, work: W, seriesId: string, n: nat)
    returns (results: seq<Report<W, V>>, err: Option<string>)
    requires ValidBundle(b)
    modifies Frame(b)
    ensures ValidBundle(b)
    ensures (Now(b), results, err)
         == Semantics.ExecuteOperationN(b.session.env, OperationN(work, seriesId, n), old(Now(b)))
  {
    var ok;
    results, ok := LoadSuccessfulExecutionSeriesReports(b, work, seriesId);
    var resultsLen := |results|;
    if ok && resultsLen >= n { return results[..n], None; }
    var remainingTimesToRun := n - resultsLen;
    results, err := RunRemaining(b, work, seriesId, n, results, remainingTimesToRun);
  }

  /** The series loop from the reports found so far. */
  method RunRemaining<W(!new), V(!new)>(
      b: Bundle<W, V>, work: W, seriesId: string, n: nat, found: seq<Report<W, V>>, times: nat)
    returns (results: seq<Report<W, V>>, err: Option<string>)
    requires ValidBundle(b) && found == SeriesReports(Log(b), work, seriesId)
    modifies Frame(b)
    ensures ValidBundle(b)
    ensures (Now(b), results, err)
         == SeriesLoop(b.session.env, OperationN(work, seriesId, n), times, found, old(Now(b)))
  {
    ghost var whole := SeriesLoop(b.session.env, OperationN(work, seriesId, n), times, found, Now(b));
    results := found;
    var order := |results|;
    var left := times;
    while left > 0
      invariant ValidBundle(b) && order == |results|
      invariant results == SeriesReports(Log(b), work, seriesId)
      invariant SeriesLoop(b.session.env, OperationN(work, seriesId, n), left, results, Now(b)) == whole
    {
      var report := RunNext(b, work, seriesId, n, order, results, left);
      order, left := order + 1, left - 1;
      if report.err.Some? { return [], report.err; }
      results := results + [report];
    }
    return results, None;
  }

  method CollectIds<W(!new), V(!new)>(reports: seq<Report<W, V>>) returns (ids: seq<nat>)
    ensures ids == Ids(reports)
  {
    ids := [];
    for i := 0 to |reports|
      invariant ids == Ids(reports[..i])
    {
      ids := ids + [reports[i].id];
      assert reports[..i + 1] == reports[..i] + [reports[i]];
    }
    assert reports[..|reports|] == reports;
  }

  /** `r` is the newest report, and its run starts at `from`. */
  ghost predicate NewestSpans<W(!new), V(!new)>(log: seq<Report<W, V>>, r: Report<W, V>, from: nat) {
    |log| > from && r == log[|log| - 1] && Start(log, |log| - 1) == from
  }

  /** After a sequence run the log is one the engine builds, and its newest report spans the call. */
  lemma SequenceKeepsLog<W(!new), V(!new)>(p: Program<W, V>, env: Environment<W, V>, k: Key<W>, s: World<W, V>)
    requires WellFounded(p) && LatestSuccess(s.log, k).None?
    requires WellShaped(s.log, s.next) && Numbered(s.log)
    ensures var s' := Perform(p, env, Sequence(k), s).0;
            && WellShaped(s'.log, s'.next) && Numbered(s'.log)
            && s'.log != [] && NewestSpans(s'.log, s'.log[|s'.log| - 1], |s.log|)
  {
    PerformKeepsLog(p, env, Sequence(k), s);
    SequenceReportSpansCall(p, env, k, s);
  }

  /** Runs the handler of a sequence under a reporter of its own, and returns the ids that one saw. */
  method RunUnderOwnReporter<W(!new), V(!new)>(p: Program<W, V>, b: Bundle<W, V>, k: Key<W>)
    returns (o: Outcome<V>, childReports: seq<nat>)
    requires WellFounded(p) && ValidBundle(b)
    modifies Frame(b)
    ensures ValidBundle(b)
    ensures Semantics.RunHandler(p, b.session.env, k, [], old(Now(b).(trace := b.session.trace + [k]))) == (Now(b), o)
    ensures old(Log(b)) <= Log(b) && childReports == Ids(Log(b)[|old(Log(b))|..])
    decreases 1 + p.rank(k), 1, 0
  {
    var recent := new RecentReporter(b.reporter);
    b.session.trace := b.session.trace + [k];
    o := RunHandler(p, Bundle(Recent(recent), b.session, b.cache), k);
    assert recent.Valid() && ValidReporter(b.reporter);
    childReports := CollectIds(recent.recentReports);
  }

  /** Records the report of a sequence, where that leaves a log the engine builds. */
  method RecordSequence<W(!new), V(!new)>(b: Bundle<W, V>, k: Key<W>, o: Outcome<V>, childReports: seq<nat>)
    returns (r: Report<W, V>)
    requires ValidBundle(b)
    requires var s' := Record(Now(b), k, o, childReports, None); WellShaped(s'.log, s'.next) && Numbered(s'.log)
    modifies Frame(b)
    ensures ValidBundle(b) && Now(b) == Record(old(Now(b)), k, o, childReports, None)
    ensures Log(b) == old(Log(b)) + [r] && (r.key, r.output, r.err) == (k, o.out, o.err)
  {
    r := b.session.NewReport(k, o, childReports, None);
    Add(b.reporter, r);
  }

  /** Runs a sequence and records its report. */
  method RunSequence<W(!new), V(!new)>(p: Program<W, V>, b: Bundle<W, V>, k: Key<W>) returns (r: Report<W, V>)
    requires WellFounded(p) && ValidBundle(b) && LatestSuccess(Log(b), k).None?
    modifies Frame(b)
    ensures ValidBundle(b)
    ensures Perform(p, b.session.env, Sequence(k), old(Now(b))) == (Now(b), Single(Outcome(r.output, r.err)))
    ensures r.key == k && NewestSpans(Log(b), r, |old(Log(b))|)
    decreases 1 + p.rank(k), 2, 0
  {
    ghost var before := Now(b);
    var o, childReports := RunUnderOwnReporter(p, b, k);
    ghost var after := Now(b);
    SequenceIsRecorded(p, b.session.env, k, before, after, o);
    SequenceKeepsLog(p, b.session.env, k, before);
    r := RecordSequence(b, k, o, childReports);
  }

  /** `reports` are the execution reports of a report of the log. */
  ghost predicate CollectedFor<W(!new), V(!new)>(
      log: seq<Report<W, V>>, next: nat, r: Report<W, V>, reports: seq<Report<W, V>>)
    requires WellShaped(log, next)
  {
    var i := Find(log, r.id);
    i.Some? && i.value < |log| && reports == Collect(log, next, i.value)
  }

  /** The previous report of a sequence, or the report of running it now. */
  method FindOrRun<W(!new), V(!new)>(p: Program<W, V>, b: Bundle<W, V>, k: Key<W>) returns (r: Report<W, V>)
    requires WellFounded(p) && ValidBundle(b)
    modifies Frame(b)
    ensures ValidBundle(b)
    ensures Perform(p, b.session.env, Sequence(k), old(Now(b))) == (Now(b), Single(Outcome(r.output, r.err)))
    ensures r in Log(b) && r.key == k
    ensures LatestSuccess(old(Log(b)), k).Some? ==> Some(r) == LatestSuccess(old(Log(b)), k)
    ensures LatestSuccess(old(Log(b)), k).None? ==> NewestSpans(Log(b), r, |old(Log(b))|)
    decreases 1 + p.rank(k), 3, 0
  {
    var previous := LoadPreviousSuccessfulReport(b, k);
    if previous.Some? {
      r := previous.value;
      LatestSuccessIsLast(Log(b), k);
    } else {
      r := RunSequence(p, b, k);
    }
  }

  /**
    A sequence, and the reports of its run or of the earlier run it reuses.  Without their
    repeats, those of a new run are what the call appended to the log, in that order.
  */
  method ExecuteSequence<W(!new), V(!new)>(p: Program<W, V>, b: Bundle<W, V>, k: Key<W>)
    returns (r: Report<W, V>, executionReports: seq<Report<W, V>>)
    requires WellFounded(p) && ValidBundle(b)
    modifies Frame(b)
    ensures ValidBundle(b)
    ensures Perform(p, b.session.env, Sequence(k), old(Now(b))) == (Now(b), Single(Outcome(r.output, r.err)))
    ensures r in Log(b) && r.key == k
    ensures LatestSuccess(old(Log(b)), k).Some? ==> Some(r) == LatestSuccess(old(Log(b)), k)
    ensures CollectedFor(Log(b), b.session.next, r, executionReports)
    ensures LatestSuccess(old(Log(b)), k).None? ==>
              |Log(b)| > |old(Log(b))| && FirstOccurrences(executionReports) == Log(b)[|old(Log(b))|..]
    decreases 1 + p.rank(k), 4, 0
  {
    r := FindOrRun(p, b, k);
    executionReports := CollectFor(b, r, |old(Log(b))|);
  }

  lemma NewestIsFoundLast<W(!new), V(!new)>(log: seq<Report<W, V>>, next: nat, r: Report<W, V>)
    requires WellShaped(log, next) && log != [] && r == log[|log| - 1]
    ensures Find(log, r.id) == Some(|log| - 1)
  {
    FindIsFirst(log, r.id);
  }

  /** The execution reports of a report that is in the log. */
  method CollectFor<W(!new), V(!new)>(b: Bundle<W, V>, r: Report<W, V>, ghost from: nat)
    returns (executionReports: seq<Report<W, V>>)
    requires ValidBundle(b) && r in Log(b)
    ensures CollectedFor(Log(b), b.session.next, r, executionReports)
    ensures NewestSpans(Log(b), r, from) ==> FirstOccurrences(executionReports) == Log(b)[from..]
  {
    FindIsFirst(Log(b), r.id);
    var collected := GetExecutionReports(b.reporter, b.session.next, r.id);
    executionReports := collected.value;
    if NewestSpans(Log(b), r, from) {
      NewestIsFoundLast(Log(b), b.session.next, r);
      RunToTheEnd(Log(b), b.session.next, from, r);
    }
  }

  /** Makes one call of a handler. */
  method Call<W(!new), V(!new)>(p: Program<W, V>, b: Bundle<W, V>, a: Action<W>) returns (reply: Reply<V>)
    requires WellFounded(p) && ValidBundle(b)
    modifies Frame(b)
    ensures ValidBundle(b)
    ensures Perform(p, b.session.env, a, old(Now(b))) == (Now(b), reply)
    decreases Rank(p, a), 5, 0
  {
    match a
    case Operation(key, force) =>
      var r := ExecuteOperation(b, key, force);
      reply := Single(Outcome(r.output, r.err));
    case OperationN(work, seriesId, n) =>
      var results, err := ExecuteOperationN(b, work, seriesId, n);
      reply := Several(Outputs(results), err);
    case Sequence(key) =>
      var r, _ := ExecuteSequence(p, b, key);
      reply := Single(Outcome(r.output, r.err));
    case Local(tag) =>
      var outcome := b.session.env(b.session.clock, Local(tag));
      b.session.clock := b.session.clock + 1;
      reply := Single(outcome);
  }

  /** Runs a handler: it calls, gets its reply, and calls again until it returns. */
  method RunHandler<W(!new), V(!new)>(p: Program<W, V>, b: Bundle<W, V>, k: Key<W>) returns (o: Outcome<V>)
    requires WellFounded(p) && ValidBundle(b)
    modifies Frame(b)
    ensures ValidBundle(b)
    ensures Semantics.RunHandler(p, b.session.env, k, [], old(Now(b))) == (Now(b), o)
    ensures exists worlds, replies :: Ends(p, b.session.env, k, old(Now(b)), Now(b), o, worlds, replies)
    decreases 1 + p.rank(k), 0, 0
  {
    var replies: seq<Reply<V>> := [];
    ghost var whole := Semantics.RunHandler(p, b.session.env, k, [], old(Now(b)));
    while p.body(k, replies).Invoke?
      invariant ValidBundle(b)
      invariant Semantics.RunHandler(p, b.session.env, k, replies, Now(b)) == whole
      decreases p.width(k) - |replies|
    {
      var reply := Call(p, b, p.body(k, replies).action);
      replies := replies + [reply];
    }
    o := p.body(k, replies).result;
    HandlerConverses(p, b.session.env, k, old(Now(b)), Now(b), o);
  }
}
