/** Whole histories: any calls, in any order, on one log, with any attempts failing. */
module History {
  import opened Prelude
  import opened Semantics
  import opened ReportGraph
  import opened SeriesNumbering
  import opened AtMostOnce
  import opened Resume

  /** The world after a list of top-level calls. */
  function Play<W(==,!new), V(!new)>(
      p: Program<W, V>, env: Environment<W, V>, calls: seq<Action<W>>, s: World<W, V>): World<W, V>
    requires WellFounded(p)
  {
    if calls == [] then s
    else Perform(p, env, calls[|calls| - 1], Play(p, env, calls[..|calls| - 1], s)).0
  }

  /** Every call leaves a log the engine builds. */
  lemma PerformKeepsLog<W(!new), V(!new)>(p: Program<W, V>, env: Environment<W, V>, a: Action<W>, s: World<W, V>)
    requires WellFounded(p) && WellShaped(s.log, s.next) && Numbered(s.log)
    ensures var s' := Perform(p, env, a, s).0;
            WellShaped(s'.log, s'.next) && Numbered(s'.log)
  {
    forall i | 0 <= i < |s.log| ensures 0 <= Start(s.log, i) {
      assert ChildrenAreRun(s.log, i);
    }
    PerformKeepsShape(p, env, a, s, 0);
    PerformKeepsNumbering(p, env, a, s);
  }

  /**
    In every history from an empty log: ids are fresh, children are earlier reports and
    exactly those of the run, series are numbered 0, 1, 2, ... and carry no idempotency
    key, and the handlers started are the reports recorded.
  */
  lemma {:induction false} EveryHistory<W(!new), V(!new)>(
      p: Program<W, V>, env: Environment<W, V>, calls: seq<Action<W>>)
    requires WellFounded(p)
    ensures var s := Play(p, env, calls, FreshWorld());
            && WellShaped(s.log, s.next) && Numbered(s.log) && PlainKeysInSeries(s.log)
            && multiset(s.trace) == multiset(Keys(s.log))
  {
    if calls == [] {
      forall w: W, id: string ensures NumberedIn<W, V>([], w, id) {}
    } else {
      var before := Play(p, env, calls[..|calls| - 1], FreshWorld());
      EveryHistory(p, env, calls[..|calls| - 1]);
      PerformKeepsLog(p, env, calls[|calls| - 1], before);
      PerformBalances(p, env, calls[|calls| - 1], before);
      PerformLogsBelow(p, env, calls[|calls| - 1], before);
      BalancedFromEven(before, Perform(p, env, calls[|calls| - 1], before).0);
    }
  }

  /**
    In every history, a key that no call renews succeeds at most once, whatever is done to
    other keys, and once it has succeeded a call of it changes nothing and gives its output.
  */
  lemma {:induction false} SucceedsOnceInEveryHistory<W(!new), V(!new)>(
      p: Program<W, V>, env: Environment<W, V>, calls: seq<Action<W>>, x: Key<W>)
    requires WellFounded(p) && NeverRenews(p, x) && forall c | c in calls :: !Renews(c, x)
    ensures var s := Play(p, env, calls, FreshWorld());
            && SucceedsOnce(s.log, x)
            && forall i | 0 <= i < |s.log| && Matches(s.log[i], x) ::
                 && Perform(p, env, Operation(x, false), s) == (s, Single(Outcome(s.log[i].output, None)))
                 && Perform(p, env, Sequence(x), s) == (s, Single(Outcome(s.log[i].output, None)))
  {
    var s := Play(p, env, calls, FreshWorld());
    if calls != [] {
      var before := Play(p, env, calls[..|calls| - 1], FreshWorld());
      SucceedsOnceInEveryHistory(p, env, calls[..|calls| - 1], x);
      PerformSucceedsOnce(p, env, calls[|calls| - 1], before, x);
      OnceIsAtMostOne(before.log, x);
    }
    OnceIsAtMostOne(s.log, x);
    forall i | 0 <= i < |s.log| && Matches(s.log[i], x)
      ensures Perform(p, env, Operation(x, false), s) == (s, Single(Outcome(s.log[i].output, None)))
      ensures Perform(p, env, Sequence(x), s) == (s, Single(Outcome(s.log[i].output, None)))
    {
      CoveredCallIsFree(p, env, Operation(x, false), s, i);
      CoveredCallIsFree(p, env, Sequence(x), s, i);
    }
  }
}
