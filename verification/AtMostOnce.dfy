/** Reuse of reports: a key that nothing renews succeeds at most once, and every started handler is accounted for. */
module AtMostOnce {
  import opened Prelude
  import opened Semantics

  /** Calls that run the handler of `x` even if it has succeeded: forcing it, or a series of its work. */
  predicate Renews<W(==)>(a: Action<W>, x: Key<W>) {
    match a
    case Operation(k, force) => force && k == x
    case OperationN(w, _, _) => Key(w, "") == x
    case Sequence(_) => false
    case Local(_) => false
  }

  ghost predicate NeverRenews<W(!new), V(!new)>(p: Program<W, V>, x: Key<W>) {
    forall k: Key<W>, replies: seq<Reply<V>> {:trigger p.body(k, replies)} ::
      p.body(k, replies).Invoke? ==> !Renews(p.body(k, replies).action, x)
  }

  /** How many successes of `x` a log records. */
  function Successes<W(==), V>(log: seq<Report<W, V>>, x: Key<W>): nat {
    if log == [] then 0
    else Successes(log[..|log| - 1], x) + (if Matches(log[|log| - 1], x) then 1 else 0)
  }

  ghost predicate SucceedsOnce<W(!new), V(!new)>(log: seq<Report<W, V>>, x: Key<W>) {
    forall i, j | 0 <= i < j < |log| :: !(Matches(log[i], x) && Matches(log[j], x))
  }

  // ----- The scan for a previous report -----

  lemma {:induction false} LatestSuccessIsLast<W(!new), V(!new)>(log: seq<Report<W, V>>, k: Key<W>)
    ensures match LatestSuccess(log, k)
            case None => forall i | 0 <= i < |log| :: !Matches(log[i], k)
            case Some(r) => exists i | 0 <= i < |log| ::
              log[i] == r && Matches(r, k) && forall j | i < j < |log| :: !Matches(log[j], k)
  {
    if log != [] && !Matches(log[|log| - 1], k) {
      LatestSuccessIsLast(log[..|log| - 1], k);
      if LatestSuccess(log[..|log| - 1], k).Some? {
        var shorter := log[..|log| - 1];
        var i :| 0 <= i < |shorter| && shorter[i] == LatestSuccess(log, k).value
              && forall j | i < j < |shorter| :: !Matches(shorter[j], k);
        forall j | i < j < |log| ensures !Matches(log[j], k) {
          if j < |shorter| { assert shorter[j] == log[j]; }
        }
      }
    }
  }

  lemma LatestSuccessAfter<W, V>(log: seq<Report<W, V>>, r: Report<W, V>, k: Key<W>)
    ensures LatestSuccess(log + [r], k) == if Matches(r, k) then Some(r) else LatestSuccess(log, k)
  {
    assert (log + [r])[..|log|] == log;
  }

  /** A key covered by a log stays covered by every later log. */
  lemma CoverageGrows<W(!new), V(!new)>(log: seq<Report<W, V>>, later: seq<Report<W, V>>, k: Key<W>)
    requires log <= later && LatestSuccess(log, k).Some?
    ensures LatestSuccess(later, k).Some?
  {
    LatestSuccessIsLast(log, k);
    LatestSuccessIsLast(later, k);
    var i :| 0 <= i < |log| && Matches(log[i], k);
    assert later[i] == log[i];
  }

  // ----- Counting successes -----

  lemma SuccessesAfter<W, V>(log: seq<Report<W, V>>, r: Report<W, V>, x: Key<W>)
    ensures Successes(log + [r], x) == Successes(log, x) + (if Matches(r, x) then 1 else 0)
  {
    assert (log + [r])[..|log|] == log;
  }

  /** Counting agrees with scanning. */
  lemma {:induction false} NoneIsZero<W(!new), V(!new)>(log: seq<Report<W, V>>, x: Key<W>)
    ensures Successes(log, x) == 0 <==> forall i | 0 <= i < |log| :: !Matches(log[i], x)
    ensures Successes(log, x) == 0 <==> LatestSuccess(log, x).None?
  {
    if log != [] {
      var init := log[..|log| - 1];
      NoneIsZero(init, x);
      assert forall i | 0 <= i < |init| :: init[i] == log[i];
    }
  }

  /** At most one counted means no two recorded. */
  lemma {:induction false} OnceIsAtMostOne<W(!new), V(!new)>(log: seq<Report<W, V>>, x: Key<W>)
    ensures Successes(log, x) <= 1 <==> SucceedsOnce(log, x)
  {
    if log != [] {
      var init, n := log[..|log| - 1], |log| - 1;
      OnceIsAtMostOne(init, x);
      NoneIsZero(init, x);
      assert forall i | 0 <= i < |init| :: init[i] == log[i];
      if Matches(log[n], x) && Successes(init, x) > 0 {
        var i :| 0 <= i < |init| && Matches(init[i], x);
        assert Matches(log[i], x);
      }
    }
  }

  // ----- At most one success per key -----

  /** Reports logged from position `lo` on belong to keys of rank at most `bound`. */
  ghost predicate RanksBelow<W(!new), V(!new)>(p: Program<W, V>, log: seq<Report<W, V>>, lo: nat, bound: nat) {
    forall i | lo <= i < |log| :: 1 + p.rank(log[i].key) <= bound
  }

  /** Series reports carry no idempotency key. */
  ghost predicate PlainKeysInSeries<W(!new), V(!new)>(log: seq<Report<W, V>>) {
    forall i | 0 <= i < |log| && log[i].series.Some? :: log[i].key.idem == ""
  }

  lemma RanksBelowTogether<W(!new), V(!new)>(
      p: Program<W, V>, log: seq<Report<W, V>>, log': seq<Report<W, V>>, log'': seq<Report<W, V>>, bound: nat)
    requires log <= log' <= log''
    requires RanksBelow(p, log', |log|, bound) && RanksBelow(p, log'', |log'|, bound)
    ensures RanksBelow(p, log'', |log|, bound)
  {
    forall i | |log| <= i < |log''| ensures 1 + p.rank(log''[i].key) <= bound {
      if i < |log'| { assert log''[i] == log'[i]; }
    }
  }

  /**
    A call logs only keys of at most its own rank, so a handler never logs its own key, and
    series reports only without idempotency key.
  */
  lemma {:induction false} PerformLogsBelow<W(!new), V(!new)>(
      p: Program<W, V>, env: Environment<W, V>, a: Action<W>, s: World<W, V>)
    requires WellFounded(p)
    ensures var log := Perform(p, env, a, s).0.log;
            RanksBelow(p, log, |s.log|, Rank(p, a)) && (PlainKeysInSeries(s.log) ==> PlainKeysInSeries(log))
    decreases Rank(p, a), 1, 0
  {
    match a
    case Operation(k, force) =>
    case OperationN(w, id, n) =>
      var found := SeriesReports(s.log, w, id);
      if |found| < n || |found| == 0 { SeriesStaysWithItsKey(env, a, n - |found|, found, s); }
    case Sequence(k) =>
      if LatestSuccess(s.log, k).None? { HandlerLogsBelow(p, env, k, [], s.(trace := s.trace + [k])); }
    case Local(_) =>
  }

  lemma {:induction false} HandlerLogsBelow<W(!new), V(!new)>(
      p: Program<W, V>, env: Environment<W, V>, k: Key<W>, replies: seq<Reply<V>>, s: World<W, V>)
    requires WellFounded(p)
    ensures var log := RunHandler(p, env, k, replies, s).0.log;
            RanksBelow(p, log, |s.log|, p.rank(k)) && (PlainKeysInSeries(s.log) ==> PlainKeysInSeries(log))
    decreases 1 + p.rank(k), 0, p.width(k) - |replies|
  {
    match p.body(k, replies)
    case Return(_) =>
    case Invoke(a) =>
      PerformLogsBelow(p, env, a, s);
      var (s', reply) := Perform(p, env, a, s);
      HandlerLogsBelow(p, env, k, replies + [reply], s');
      RanksBelowTogether(p, s.log, s'.log, RunHandler(p, env, k, replies + [reply], s').0.log, p.rank(k));
  }

  /** A stretch of log without reports of `x` adds no success of it. */
  lemma {:induction false} NothingAdded<W(!new), V(!new)>(log: seq<Report<W, V>>, later: seq<Report<W, V>>, x: Key<W>)
    requires log <= later && forall i | |log| <= i < |later| :: later[i].key != x
    ensures Successes(later, x) == Successes(log, x)
    decreases |later|
  {
    if |log| < |later| {
      NothingAdded(log, later[..|later| - 1], x);
    } else {
      assert log == later;
    }
  }

  /** A key that is not renewed gains a success only if it has none. */
  ghost predicate GainsFirst<W(!new), V(!new)>(log: seq<Report<W, V>>, later: seq<Report<W, V>>, x: Key<W>) {
    Successes(later, x) == Successes(log, x) || (Successes(log, x) == 0 && Successes(later, x) == 1)
  }

  /** One more report, of `x` only if it had no success and has got none since. */
  lemma ReportGainsFirst<W(!new), V(!new)>(log: seq<Report<W, V>>, later: seq<Report<W, V>>, r: Report<W, V>, x: Key<W>)
    requires log <= later && GainsFirst(log, later, x)
    requires r.key == x ==> LatestSuccess(log, x).None? && forall i | |log| <= i < |later| :: later[i].key != x
    ensures GainsFirst(log, later + [r], x)
  {
    SuccessesAfter(later, r, x);
    if r.key == x {
      NoneIsZero(log, x);
      NothingAdded(log, later, x);
    }
  }

  /** A series logs reports of its own key, and starts handlers of that key alone. */
  lemma {:induction false} SeriesStaysWithItsKey<W(!new), V(!new)>(
      env: Environment<W, V>, a: Action<W>, remaining: nat, results: seq<Report<W, V>>, s: World<W, V>)
    requires a.OperationN?
    ensures var s' := SeriesLoop(env, a, remaining, results, s).0;
            && s.trace <= s'.trace
            && (forall i | |s.log| <= i < |s'.log| :: s'.log[i].key == Key(a.work, ""))
            && (forall i | |s.trace| <= i < |s'.trace| :: s'.trace[i] == Key(a.work, ""))
    decreases remaining
  {
    if remaining > 0 {
      var s' := Attempt(env, a, Key(a.work, ""), Some(Series(a.seriesId, |results|)), s);
      var r := s'.log[|s.log|];
      if r.err.None? {
        SeriesStaysWithItsKey(env, a, remaining - 1, results + [r], s');
        var s'' := SeriesLoop(env, a, remaining - 1, results + [r], s').0;
        assert s''.log[|s.log|] == s'.log[|s.log|] && s''.trace[|s.trace|] == s'.trace[|s.trace|];
      }
    }
  }

  /** Whatever a history does with other keys, a key it never renews gains at most one success. */
  lemma {:induction false} PerformSucceedsOnce<W(!new), V(!new)>(
      p: Program<W, V>, env: Environment<W, V>, a: Action<W>, s: World<W, V>, x: Key<W>)
    requires WellFounded(p) && NeverRenews(p, x) && !Renews(a, x)
    ensures var s' := Perform(p, env, a, s).0;
            GainsFirst(s.log, s'.log, x)
    decreases Rank(p, a), 1, 0
  {
    match a
    case Operation(k, force) =>
      if force || LatestSuccess(s.log, k).None? {
        ReportGainsFirst(s.log, s.log, Attempt(env, a, k, None, s).log[|s.log|], x);
      }
    case OperationN(w, id, n) =>
      var found := SeriesReports(s.log, w, id);
      if |found| < n || |found| == 0 {
        SeriesStaysWithItsKey(env, a, n - |found|, found, s);
        NothingAdded(s.log, SeriesLoop(env, a, n - |found|, found, s).0.log, x);
      }
    case Sequence(k) =>
      if LatestSuccess(s.log, k).None? {
        var s0 := s.(trace := s.trace + [k]);
        HandlerSucceedsOnce(p, env, k, [], s0, x);
        HandlerLogsBelow(p, env, k, [], s0);
        var (s1, o) := RunHandler(p, env, k, [], s0);
        ReportGainsFirst(s.log, s1.log, Report(s1.next, k, o.out, o.err, Ids(s1.log[|s.log|..]), None), x);
      }
    case Local(_) =>
  }

  lemma {:induction false} HandlerSucceedsOnce<W(!new), V(!new)>(
      p: Program<W, V>, env: Environment<W, V>, k: Key<W>, replies: seq<Reply<V>>, s: World<W, V>, x: Key<W>)
    requires WellFounded(p) && NeverRenews(p, x)
    ensures var s' := RunHandler(p, env, k, replies, s).0;
            GainsFirst(s.log, s'.log, x)
    decreases 1 + p.rank(k), 0, p.width(k) - |replies|
  {
    match p.body(k, replies)
    case Return(_) =>
    case Invoke(a) =>
      PerformSucceedsOnce(p, env, a, s, x);
      var (s', reply) := Perform(p, env, a, s);
      HandlerSucceedsOnce(p, env, k, replies + [reply], s', x);
  }

  // ----- Calls that renew a key -----

  /** How often a renewing call that ends without error runs the handler. */
  function Renewals<W(==), V>(a: Action<W>, log: seq<Report<W, V>>): nat {
    match a
    case OperationN(w, id, n) => var k := |SeriesReports(log, w, id)|; if k < n then n - k else 0
    case _ => 1
  }

  lemma {:induction false} SeriesLoopSuccesses<W(!new), V(!new)>(
      env: Environment<W, V>, a: Action<W>, remaining: nat, results: seq<Report<W, V>>, s: World<W, V>)
    requires a.OperationN?
    ensures var (s', _, err) := SeriesLoop(env, a, remaining, results, s);
            err.None? ==> Successes(s'.log, Key(a.work, "")) == Successes(s.log, Key(a.work, "")) + remaining
    decreases remaining
  {
    if remaining > 0 {
      var s' := Attempt(env, a, Key(a.work, ""), Some(Series(a.seriesId, |results|)), s);
      var r := s'.log[|s.log|];
      SuccessesAfter(s.log, r, Key(a.work, ""));
      if r.err.None? { SeriesLoopSuccesses(env, a, remaining - 1, results + [r], s'); }
    }
  }

  /**
    A forced execution or a series that ends without error adds exactly its renewals, so it
    leaves its key with at most one success exactly when those and the ones already
    recorded are at most one together.
  */
  lemma RenewalsAddUp<W(!new), V(!new)>(
      p: Program<W, V>, env: Environment<W, V>, a: Action<W>, s: World<W, V>, x: Key<W>)
    requires WellFounded(p) && Renews(a, x)
    requires Perform(p, env, a, s).1.Error().None?
    ensures var s' := Perform(p, env, a, s).0;
            && Successes(s'.log, x) == Successes(s.log, x) + Renewals(a, s.log)
            && (SucceedsOnce(s'.log, x) <==> Successes(s.log, x) + Renewals(a, s.log) <= 1)
  {
    match a {
      case Operation(k, _) => SuccessesAfter(s.log, Attempt(env, a, k, None, s).log[|s.log|], x);
      case OperationN(w, id, n) =>
        var found := SeriesReports(s.log, w, id);
        if |found| < n || |found| == 0 { SeriesLoopSuccesses(env, a, n - |found|, found, s); }
    }
    OnceIsAtMostOne(Perform(p, env, a, s).0.log, x);
  }

  lemma {:induction false} SeriesReportsAreSuccesses<W(!new), V(!new)>(log: seq<Report<W, V>>, w: W, id: string)
    requires PlainKeysInSeries(log)
    ensures |SeriesReports(log, w, id)| <= Successes(log, Key(w, ""))
  {
    if log != [] { SeriesReportsAreSuccesses(log[..|log| - 1], w, id); }
  }

  /** So a series of two or more always breaks at-most-once: without error it leaves n successes of one key. */
  lemma SeriesSucceedsRepeatedly<W(!new), V(!new)>(
      p: Program<W, V>, env: Environment<W, V>, a: Action<W>, s: World<W, V>)
    requires WellFounded(p) && a.OperationN? && PlainKeysInSeries(s.log)
    requires Perform(p, env, a, s).1.Error().None?
    ensures var s' := Perform(p, env, a, s).0;
            && Successes(s'.log, Key(a.work, "")) >= a.n
            && (a.n >= 2 ==> !SucceedsOnce(s'.log, Key(a.work, "")))
  {
    SeriesReportsAreSuccesses(s.log, a.work, a.seriesId);
    RenewalsAddUp(p, env, a, s, Key(a.work, ""));
  }

  /**
    Once a key has a success, calling it again with reuse on changes nothing at all (no
    handler, no report, no tick) and answers with the output of the newest success.
  */
  lemma CoveredCallIsFree<W(!new), V(!new)>(
      p: Program<W, V>, env: Environment<W, V>, a: Action<W>, s: World<W, V>, i: nat)
    requires WellFounded(p)
    requires (a.Operation? && !a.force) || a.Sequence?
    requires i < |s.log| && Matches(s.log[i], a.key)
    requires forall j | i < j < |s.log| :: !Matches(s.log[j], a.key)
    ensures Perform(p, env, a, s) == (s, Single(Outcome(s.log[i].output, None)))
  {
    LatestSuccessIsLast(s.log, a.key);
  }

  /** A forced execution that succeeds becomes the report that later calls reuse. */
  lemma ForcedSuccessIsReused<W(!new), V(!new)>(p: Program<W, V>, env: Environment<W, V>, k: Key<W>, s: World<W, V>)
    requires WellFounded(p)
    requires env(s.clock, Operation(k, true)).err.None?
    ensures var s' := Perform(p, env, Operation(k, true), s).0;
            && |s'.log| == |s.log| + 1
            && s'.trace == s.trace + [k]
            && Perform(p, env, Operation(k, false), s') == (s', Single(env(s.clock, Operation(k, true))))
            && Perform(p, env, Sequence(k), s') == (s', Single(env(s.clock, Operation(k, true))))
  {
    var s' := Perform(p, env, Operation(k, true), s).0;
    LatestSuccessAfter(s.log, s'.log[|s.log|], k);
  }

  // ----- Accounting -----

  function Keys<W, V>(log: seq<Report<W, V>>): seq<Key<W>> {
    seq(|log|, i requires 0 <= i < |log| => log[i].key)
  }

  /** The handlers started between `s` and `s'` are, key by key, the reports logged between them. */
  ghost predicate Balanced<W(!new), V(!new)>(s: World<W, V>, s': World<W, V>) {
    multiset(s'.trace) + multiset(Keys(s.log)) == multiset(s.trace) + multiset(Keys(s'.log))
  }

  lemma BalancedTransitive<W(!new), V(!new)>(s: World<W, V>, s': World<W, V>, s'': World<W, V>)
    requires Balanced(s, s') && Balanced(s', s'')
    ensures Balanced(s, s'')
  {
    var t, t', t'' := multiset(s.trace), multiset(s'.trace), multiset(s''.trace);
    var l, l', l'' := multiset(Keys(s.log)), multiset(Keys(s'.log)), multiset(Keys(s''.log));
    forall k ensures t''[k] + l[k] == t[k] + l''[k] {
      assert (t' + l)[k] == (t + l')[k];
      assert (t'' + l')[k] == (t' + l'')[k];
    }
  }

  lemma RecordAddsKey<W, V>(s: World<W, V>, k: Key<W>, o: Outcome<V>, children: seq<nat>, series: Option<Series>)
    ensures multiset(Keys(Record(s, k, o, children, series).log)) == multiset(Keys(s.log)) + multiset{k}
  {
    assert Keys(Record(s, k, o, children, series).log) == Keys(s.log) + [k];
  }

  lemma AttemptBalances<W(!new), V(!new)>(
      env: Environment<W, V>, a: Action<W>, k: Key<W>, series: Option<Series>, s: World<W, V>)
    ensures Balanced(s, Attempt(env, a, k, series, s))
  {
    RecordAddsKey(s.(clock := s.clock + 1, trace := s.trace + [k]), k, env(s.clock, a), [], series);
  }

  lemma {:induction false} SeriesBalances<W(!new), V(!new)>(
      env: Environment<W, V>, a: Action<W>, remaining: nat, results: seq<Report<W, V>>, s: World<W, V>)
    requires a.OperationN?
    ensures Balanced(s, SeriesLoop(env, a, remaining, results, s).0)
    decreases remaining
  {
    if remaining > 0 {
      var s' := Attempt(env, a, Key(a.work, ""), Some(Series(a.seriesId, |results|)), s);
      AttemptBalances(env, a, Key(a.work, ""), Some(Series(a.seriesId, |results|)), s);
      if s'.log[|s.log|].err.None? {
        var more := results + [s'.log[|s.log|]];
        SeriesBalances(env, a, remaining - 1, more, s');
        BalancedTransitive(s, s', SeriesLoop(env, a, remaining - 1, more, s').0);
      }
    }
  }

  /** Handler invocations equal recorded successes plus recorded failures, forced runs and series included. */
  lemma {:induction false} PerformBalances<W(!new), V(!new)>(
      p: Program<W, V>, env: Environment<W, V>, a: Action<W>, s: World<W, V>)
    requires WellFounded(p)
    ensures Balanced(s, Perform(p, env, a, s).0)
    decreases Rank(p, a), 1, 0
  {
    match a
    case Operation(k, force) => AttemptBalances(env, a, k, None, s);
    case OperationN(w, id, n) =>
      var found := SeriesReports(s.log, w, id);
      if |found| < n || |found| == 0 { SeriesBalances(env, a, n - |found|, found, s); }
    case Sequence(k) =>
      if LatestSuccess(s.log, k).None? {
        var s0 := s.(trace := s.trace + [k]);
        HandlerBalances(p, env, k, [], s0);
        var (s1, o) := RunHandler(p, env, k, [], s0);
        RecordAddsKey(s1, k, o, Ids(s1.log[|s.log|..]), None);
      }
    case Local(_) =>
  }

  lemma {:induction false} HandlerBalances<W(!new), V(!new)>(
      p: Program<W, V>, env: Environment<W, V>, k: Key<W>, replies: seq<Reply<V>>, s: World<W, V>)
    requires WellFounded(p)
    ensures Balanced(s, RunHandler(p, env, k, replies, s).0)
    decreases 1 + p.rank(k), 0, p.width(k) - |replies|
  {
    match p.body(k, replies)
    case Return(_) =>
    case Invoke(a) =>
      PerformBalances(p, env, a, s);
      var (s', reply) := Perform(p, env, a, s);
      HandlerBalances(p, env, k, replies + [reply], s');
      BalancedTransitive(s, s', RunHandler(p, env, k, replies + [reply], s').0);
  }

  /** The handler of `x` is started between `s` and `s'` only if it had no success at `s`. */
  ghost predicate OnlyMissing<W(!new), V(!new)>(s: World<W, V>, s': World<W, V>, x: Key<W>) {
    && s.trace <= s'.trace
    && (x in s'.trace[|s.trace|..] ==> LatestSuccess(s.log, x).None?)
  }

  lemma OnlyMissingTransitive<W(!new), V(!new)>(s: World<W, V>, s': World<W, V>, s'': World<W, V>, x: Key<W>)
    requires s.log <= s'.log && OnlyMissing(s, s', x) && OnlyMissing(s', s'', x)
    ensures OnlyMissing(s, s'', x)
  {
    assert s''.trace[|s.trace|..] == s'.trace[|s.trace|..] + s''.trace[|s'.trace|..];
    if LatestSuccess(s.log, x).Some? { CoverageGrows(s.log, s'.log, x); }
  }

  lemma {:induction false} PerformRunsOnlyMissing<W(!new), V(!new)>(
      p: Program<W, V>, env: Environment<W, V>, a: Action<W>, s: World<W, V>, x: Key<W>)
    requires WellFounded(p) && NeverRenews(p, x) && !Renews(a, x)
    ensures OnlyMissing(s, Perform(p, env, a, s).0, x)
    decreases Rank(p, a), 1, 0
  {
    match a
    case Operation(_, _) =>
    case OperationN(w, id, n) =>
      var found := SeriesReports(s.log, w, id);
      if |found| < n || |found| == 0 { SeriesStaysWithItsKey(env, a, n - |found|, found, s); }
    case Sequence(k) =>
      if LatestSuccess(s.log, k).None? {
        var s0 := s.(trace := s.trace + [k]);
        HandlerRunsOnlyMissing(p, env, k, [], s0, x);
        OnlyMissingTransitive(s, s0, RunHandler(p, env, k, [], s0).0, x);
      }
    case Local(_) =>
  }

  lemma {:induction false} HandlerRunsOnlyMissing<W(!new), V(!new)>(
      p: Program<W, V>, env: Environment<W, V>, k: Key<W>, replies: seq<Reply<V>>, s: World<W, V>, x: Key<W>)
    requires WellFounded(p) && NeverRenews(p, x)
    ensures OnlyMissing(s, RunHandler(p, env, k, replies, s).0, x)
    decreases 1 + p.rank(k), 0, p.width(k) - |replies|
  {
    match p.body(k, replies)
    case Return(_) =>
    case Invoke(a) =>
      PerformRunsOnlyMissing(p, env, a, s, x);
      var (s', reply) := Perform(p, env, a, s);
      HandlerRunsOnlyMissing(p, env, k, replies + [reply], s', x);
      OnlyMissingTransitive(s, s', RunHandler(p, env, k, replies + [reply], s').0, x);
  }
}
