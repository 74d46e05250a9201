/**
  Resuming after failures.  When outputs are determined by keys and handlers pass errors
  on, a run that is interrupted any number of times and re-run on the same log ends with
  the reply of a run in which nothing ever failed.
*/
module Resume {
  import opened Prelude
  import opened Semantics
  import opened AtMostOnce

  /** What each operation and each piece of local work computes when it does not fail. */
  datatype Meaning<!W, !V> = Meaning(op: Key<W> -> V, local: W -> V)

  /** Attempts may fail whenever they like, but a success has the output its key determines. */
  ghost predicate Faithful<W(!new), V(!new)>(env: Environment<W, V>, m: Meaning<W, V>) {
    forall t: nat, a: Action<W> {:trigger env(t, a)} :: env(t, a).err.None? ==>
      match a
      case Operation(k, _) => env(t, a).out == m.op(k)
      case OperationN(w, _, _) => env(t, a).out == m.op(Key(w, ""))
      case Local(tag) => env(t, a).out == m.local(tag)
      case Sequence(_) => true
  }

  ghost predicate NeverFails<W(!new), V(!new)>(env: Environment<W, V>, from: nat) {
    forall t: nat, a: Action<W> {:trigger env(t, a)} :: from <= t ==> env(t, a).err.None?
  }

  /** A handler whose last call answered with an error returns an error. */
  ghost predicate PassesErrorsOn<W(!new), V(!new)>(p: Program<W, V>) {
    forall k: Key<W>, replies: seq<Reply<V>> {:trigger p.body(k, replies)} ::
      |replies| > 0 && replies[|replies| - 1].Error().Some? ==>
        p.body(k, replies).Return? && p.body(k, replies).result.err.Some?
  }

  /** A key belongs to an operation or to a sequence, not to both. */
  ghost predicate RightKind<W>(a: Action<W>, isSequence: Key<W> -> bool) {
    match a
    case Operation(k, _) => !isSequence(k)
    case OperationN(w, _, _) => !isSequence(Key(w, ""))
    case Sequence(k) => isSequence(k)
    case Local(_) => true
  }

  ghost predicate KindsApart<W(!new), V(!new)>(p: Program<W, V>, isSequence: Key<W> -> bool) {
    forall k: Key<W>, replies: seq<Reply<V>> {:trigger p.body(k, replies)} ::
      p.body(k, replies).Invoke? ==> RightKind(p.body(k, replies).action, isSequence)
  }

  // ----- The failure-free reading of a program: no log, no clock, no environment -----

  ghost function Ideal<W(!new), V(!new)>(p: Program<W, V>, m: Meaning<W, V>, a: Action<W>): Reply<V>
    requires WellFounded(p)
    decreases Rank(p, a), 1, 0
  {
    match a
    case Operation(k, _) => Single(Outcome(m.op(k), None))
    case OperationN(w, _, n) => Several(seq(n, _ => m.op(Key(w, ""))), None)
    case Sequence(k) => Single(IdealHandler(p, m, k, []))
    case Local(tag) => Single(Outcome(m.local(tag), None))
  }

  ghost function IdealHandler<W(!new), V(!new)>(
      p: Program<W, V>, m: Meaning<W, V>, k: Key<W>, replies: seq<Reply<V>>): Outcome<V>
    requires WellFounded(p)
    decreases 1 + p.rank(k), 0, p.width(k) - |replies|
  {
    match p.body(k, replies)
    case Return(o) => o
    case Invoke(a) => IdealHandler(p, m, k, replies + [Ideal(p, m, a)])
  }

  /** The one output a success for `k` can have. */
  ghost function Value<W(!new), V(!new)>(p: Program<W, V>, m: Meaning<W, V>, isSequence: Key<W> -> bool, k: Key<W>): V
    requires WellFounded(p)
  {
    if isSequence(k) then IdealHandler(p, m, k, []).out else m.op(k)
  }

  /** Every recorded success is one the failure-free reading would produce. */
  ghost predicate Sound<W(!new), V(!new)>(
      p: Program<W, V>, m: Meaning<W, V>, isSequence: Key<W> -> bool, log: seq<Report<W, V>>)
    requires WellFounded(p)
  {
    forall i | 0 <= i < |log| && log[i].err.None? ::
      && log[i].output == Value(p, m, isSequence, log[i].key)
      && (isSequence(log[i].key) ==> IdealHandler(p, m, log[i].key, []).err.None?)
  }

  lemma ReusedIsSound<W(!new), V(!new)>(
      p: Program<W, V>, m: Meaning<W, V>, isSequence: Key<W> -> bool, log: seq<Report<W, V>>, k: Key<W>)
    requires WellFounded(p) && Sound(p, m, isSequence, log) && LatestSuccess(log, k).Some?
    ensures LatestSuccess(log, k).value.output == Value(p, m, isSequence, k)
    ensures LatestSuccess(log, k).value.err.None?
    ensures isSequence(k) ==> IdealHandler(p, m, k, []).err.None?
  {
    LatestSuccessIsLast(log, k);
  }

  lemma {:induction false} SeriesReportsAreSound<W(!new), V(!new)>(
      p: Program<W, V>, m: Meaning<W, V>, isSequence: Key<W> -> bool, log: seq<Report<W, V>>, w: W, id: string)
    requires WellFounded(p) && Sound(p, m, isSequence, log) && PlainKeysInSeries(log)
    requires !isSequence(Key(w, ""))
    ensures forall i | 0 <= i < |SeriesReports(log, w, id)| :: SeriesReports(log, w, id)[i].output == m.op(Key(w, ""))
  {
    if log != [] {
      SeriesReportsAreSound(p, m, isSequence, log[..|log| - 1], w, id);
    }
  }

  lemma {:induction false} SeriesLoopResumes<W(!new), V(!new)>(
      p: Program<W, V>, m: Meaning<W, V>, isSequence: Key<W> -> bool, env: Environment<W, V>, a: Action<W>,
      remaining: nat, results: seq<Report<W, V>>, s: World<W, V>)
    requires WellFounded(p) && Faithful(env, m) && a.OperationN? && RightKind(a, isSequence)
    requires Sound(p, m, isSequence, s.log) && PlainKeysInSeries(s.log)
    requires forall i | 0 <= i < |results| :: results[i].output == m.op(Key(a.work, ""))
    ensures var (s', rs, err) := SeriesLoop(env, a, remaining, results, s);
            && Sound(p, m, isSequence, s'.log) && PlainKeysInSeries(s'.log)
            && s.clock <= s'.clock
            && (err.None? ==> Outputs(rs) == seq(|results| + remaining, _ => m.op(Key(a.work, ""))))
            && (NeverFails(env, s.clock) ==> err.None?)
    decreases remaining
  {
    if remaining > 0 {
      var s' := Attempt(env, a, Key(a.work, ""), Some(Series(a.seriesId, |results|)), s);
      assert env(s.clock, a) == Outcome(s'.log[|s.log|].output, s'.log[|s.log|].err);
      if s'.log[|s.log|].err.None? {
        SeriesLoopResumes(p, m, isSequence, env, a, remaining - 1, results + [s'.log[|s.log|]], s');
      }
    }
  }

  /**
    One call, on any sound log: the log stays sound; a reply without error is exactly the
    failure-free reply; and if nothing fails from here on, that is the reply.
  */
  lemma {:induction false} PerformResumes<W(!new), V(!new)>(
      p: Program<W, V>, m: Meaning<W, V>, isSequence: Key<W> -> bool, env: Environment<W, V>, a: Action<W>,
      s: World<W, V>)
    requires WellFounded(p) && PassesErrorsOn(p) && KindsApart(p, isSequence) && Faithful(env, m)
    requires RightKind(a, isSequence)
    requires Sound(p, m, isSequence, s.log) && PlainKeysInSeries(s.log)
    ensures var (s', reply) := Perform(p, env, a, s);
            && Sound(p, m, isSequence, s'.log) && PlainKeysInSeries(s'.log)
            && s.clock <= s'.clock
            && (reply.Error().None? ==> reply == Ideal(p, m, a))
            && (NeverFails(env, s.clock) && Ideal(p, m, a).Error().None? ==> reply.Error().None?)
    decreases Rank(p, a), 1, 0
  {
    match a
    case Operation(k, force) =>
      if LatestSuccess(s.log, k).Some? { ReusedIsSound(p, m, isSequence, s.log, k); }
      assert env(s.clock, a).err.None? ==> env(s.clock, a).out == m.op(k);
    case OperationN(w, id, n) =>
      var found := SeriesReports(s.log, w, id);
      SeriesReportsAreSound(p, m, isSequence, s.log, w, id);
      if |found| < n || |found| == 0 {
        SeriesLoopResumes(p, m, isSequence, env, a, n - |found|, found, s);
      }
    case Sequence(k) =>
      if LatestSuccess(s.log, k).Some? {
        ReusedIsSound(p, m, isSequence, s.log, k);
      } else {
        HandlerResumes(p, m, isSequence, env, k, [], s.(trace := s.trace + [k]));
      }
    case Local(_) =>
  }

  lemma {:induction false} HandlerResumes<W(!new), V(!new)>(
      p: Program<W, V>, m: Meaning<W, V>, isSequence: Key<W> -> bool, env: Environment<W, V>, k: Key<W>,
      replies: seq<Reply<V>>, s: World<W, V>)
    requires WellFounded(p) && PassesErrorsOn(p) && KindsApart(p, isSequence) && Faithful(env, m)
    requires Sound(p, m, isSequence, s.log) && PlainKeysInSeries(s.log)
    ensures var (s', o) := RunHandler(p, env, k, replies, s);
            && Sound(p, m, isSequence, s'.log) && PlainKeysInSeries(s'.log)
            && s.clock <= s'.clock
            && (o.err.None? ==> o == IdealHandler(p, m, k, replies))
            && (NeverFails(env, s.clock) && IdealHandler(p, m, k, replies).err.None? ==> o.err.None?)
    decreases 1 + p.rank(k), 0, p.width(k) - |replies|
  {
    match p.body(k, replies)
    case Return(_) =>
    case Invoke(a) =>
      PerformResumes(p, m, isSequence, env, a, s);
      var (s', reply) := Perform(p, env, a, s);
      HandlerResumes(p, m, isSequence, env, k, replies + [reply], s');
      if Ideal(p, m, a).Error().Some? {
        ErrorEndsHandler(p, m, k, replies + [Ideal(p, m, a)]);
      }
      if reply.Error().Some? {
        assert p.body(k, replies + [reply]).Return?;
      }
  }

  lemma ErrorEndsHandler<W(!new), V(!new)>(p: Program<W, V>, m: Meaning<W, V>, k: Key<W>, replies: seq<Reply<V>>)
    requires WellFounded(p) && PassesErrorsOn(p)
    requires |replies| > 0 && replies[|replies| - 1].Error().Some?
    ensures IdealHandler(p, m, k, replies).err.Some?
  {
    assert p.body(k, replies).Return?;
  }

  // ----- Runs repeated on one log -----

  /** The world after running the same call `times` times, each run starting from the log the last one left. */
  function Rerun<W(==,!new), V(!new)>(
      p: Program<W, V>, env: Environment<W, V>, a: Action<W>, s: World<W, V>, times: nat): World<W, V>
    requires WellFounded(p)
  {
    if times == 0 then s else Perform(p, env, a, Rerun(p, env, a, s, times - 1)).0
  }

  function FreshWorld<W, V>(): World<W, V> { World([], 0, 0, []) }

  lemma {:induction false} RerunsStaySound<W(!new), V(!new)>(
      p: Program<W, V>, m: Meaning<W, V>, isSequence: Key<W> -> bool, env: Environment<W, V>, a: Action<W>, times: nat)
    
    requires WellFounded(p) && PassesErrorsOn(p) && KindsApart(p, isSequence) && Faithful(env, m)
    requires RightKind(a, isSequence)
    ensures var s := Rerun(p, env, a, FreshWorld(), times);
            Sound(p, m, isSequence, s.log) && PlainKeysInSeries(s.log)
  {
    if times > 0 {
      RerunsStaySound(p, m, isSequence, env, a, times - 1);
      PerformResumes(p, m, isSequence, env, a, Rerun(p, env, a, FreshWorld(), times - 1));
    }
  }

  /**
    Resume equivalence.  Run a call on an empty log and, after `failures` earlier runs with
    any pattern of failing attempts, let a run answer without error: the answer is that of
    a single run, on an empty log, in which nothing fails.
  */
  lemma ResumeEquivalence<W(!new), V(!new)>(
      p: Program<W, V>, m: Meaning<W, V>, isSequence: Key<W> -> bool, env: Environment<W, V>, calm: Environment<W, V>,
      a: Action<W>, failures: nat)
    requires WellFounded(p) && PassesErrorsOn(p) && KindsApart(p, isSequence)
    requires Faithful(env, m) && Faithful(calm, m) && NeverFails(calm, 0)
    requires RightKind(a, isSequence)
    ensures var reply := Perform(p, env, a, Rerun(p, env, a, FreshWorld(), failures)).1;
            reply.Error().None? ==> reply == Perform(p, calm, a, FreshWorld()).1
    ensures var s := Rerun(p, env, a, FreshWorld(), failures);
            NeverFails(env, s.clock) && Perform(p, calm, a, FreshWorld()).1.Error().None? ==>
              Perform(p, env, a, s).1 == Perform(p, calm, a, FreshWorld()).1
  {
    RerunsStaySound(p, m, isSequence, env, a, failures);
    PerformResumes(p, m, isSequence, env, a, Rerun(p, env, a, FreshWorld(), failures));
    PerformResumes(p, m, isSequence, calm, a, FreshWorld());
  }

  lemma BalancedFromEven<W(!new), V(!new)>(s: World<W, V>, s': World<W, V>)
    requires Balanced(s, s') && multiset(s.trace) == multiset(Keys(s.log))
    ensures multiset(s'.trace) == multiset(Keys(s'.log))
  {
    var t, l, t', l' := multiset(s.trace), multiset(Keys(s.log)), multiset(s'.trace), multiset(Keys(s'.log));
    forall k ensures t'[k] == l'[k] {
      assert (t' + l)[k] == (t + l')[k];
    }
  }

  /**
    The cost of all runs together.  After any number of runs the handlers ever started are
    the recorded reports, key by key, and a key that nothing renews has at most one success
    among them and is started again only while it has none.  So work is repeated only
    where it failed.
  */
  lemma {:induction false} RerunsRepeatOnlyFailures<W(!new), V(!new)>(
      p: Program<W, V>, env: Environment<W, V>, a: Action<W>, times: nat, x: Key<W>)
    requires WellFounded(p) && NeverRenews(p, x) && !Renews(a, x)
    ensures var s := Rerun(p, env, a, FreshWorld(), times);
            && multiset(s.trace) == multiset(Keys(s.log))
            && SucceedsOnce(s.log, x)
            && OnlyMissing(s, Perform(p, env, a, s).0, x)
  {
    var s := Rerun(p, env, a, FreshWorld(), times);
    if times > 0 {
      var before := Rerun(p, env, a, FreshWorld(), times - 1);
      RerunsRepeatOnlyFailures(p, env, a, times - 1, x);
      PerformBalances(p, env, a, before);
      BalancedFromEven(before, s);
      PerformSucceedsOnce(p, env, a, before, x);
      OnceIsAtMostOne(before.log, x);
    }
    OnceIsAtMostOne(s.log, x);
    PerformRunsOnlyMissing(p, env, a, s, x);
  }
}
