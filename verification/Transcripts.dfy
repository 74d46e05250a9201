/**
  What a call does, told step by step and without the functions of module Semantics for
  attempts, series and handlers: what is asked of the outside world or of a handler, what is
  recorded of the answer, and what the caller is told.  Nothing is assumed of the program
  beyond termination; handlers may carry on after errors, wrap them or drop them.
*/
module Transcripts {
  import opened Prelude
  import opened Semantics
  import opened SeriesNumbering

  // ----- Handlers -----

  /**
    A conversation of the handler for `k`: after the replies so far the handler names its
    next call, that call is performed in the world the last one left, and its reply is added.
  */
  ghost predicate Conversation<W(!new), V(!new)>(
      p: Program<W, V>, env: Environment<W, V>, k: Key<W>, worlds: seq<World<W, V>>, replies: seq<Reply<V>>)
    requires WellFounded(p)
  {
    && |worlds| == |replies| + 1
    && forall i | 0 <= i < |replies| :: Turn(p, env, k, worlds[i], replies[..i], replies[i], worlds[i + 1])
  }

  ghost predicate Turn<W(!new), V(!new)>(
      p: Program<W, V>, env: Environment<W, V>, k: Key<W>, s: World<W, V>, before: seq<Reply<V>>, reply: Reply<V>,
      s': World<W, V>)
    requires WellFounded(p)
  {
    && p.body(k, before).Invoke?
    && Perform(p, env, p.body(k, before).action, s) == (s', reply)
  }

  /** A conversation from `s` to `s'` after which the handler returns `o`. */
  ghost predicate Ends<W(!new), V(!new)>(
      p: Program<W, V>, env: Environment<W, V>, k: Key<W>, s: World<W, V>, s': World<W, V>, o: Outcome<V>,
      worlds: seq<World<W, V>>, replies: seq<Reply<V>>)
    requires WellFounded(p)
  {
    && Conversation(p, env, k, worlds, replies)
    && worlds[0] == s && worlds[|replies|] == s'
    && p.body(k, replies) == Return(o)
  }

  /** A conversation so far, carried to its end. */
  lemma {:induction false} ConversationGoesOn<W(!new), V(!new)>(
      p: Program<W, V>, env: Environment<W, V>, k: Key<W>, worlds: seq<World<W, V>>, replies: seq<Reply<V>>)
    returns (allWorlds: seq<World<W, V>>, allReplies: seq<Reply<V>>)
    requires WellFounded(p) && Conversation(p, env, k, worlds, replies)
    ensures var (s', o) := RunHandler(p, env, k, replies, worlds[|replies|]);
            Ends(p, env, k, worlds[0], s', o, allWorlds, allReplies)
    decreases p.width(k) - |replies|
  {
    match p.body(k, replies)
    case Return(_) => allWorlds, allReplies := worlds, replies;
    case Invoke(a) =>
      var (s', reply) := Perform(p, env, a, worlds[|replies|]);
      OneMoreTurn(p, env, k, worlds, replies, reply, s');
      allWorlds, allReplies := ConversationGoesOn(p, env, k, worlds + [s'], replies + [reply]);
  }

  lemma OneMoreTurn<W(!new), V(!new)>(
      p: Program<W, V>, env: Environment<W, V>, k: Key<W>, worlds: seq<World<W, V>>, replies: seq<Reply<V>>,
      reply: Reply<V>, s': World<W, V>)
    requires WellFounded(p) && Conversation(p, env, k, worlds, replies)
    requires Turn(p, env, k, worlds[|replies|], replies, reply, s')
    ensures Conversation(p, env, k, worlds + [s'], replies + [reply])
  {
    var ws, rs := worlds + [s'], replies + [reply];
    forall i | 0 <= i < |rs| ensures Turn(p, env, k, ws[i], rs[..i], rs[i], ws[i + 1]) {
      if i < |replies| {
        assert Turn(p, env, k, worlds[i], replies[..i], replies[i], worlds[i + 1]);
        assert rs[..i] == replies[..i];
      } else {
        assert rs[..i] == replies;
      }
    }
  }

  /** Running the handler from any point of a conversation gives what running it from the start does. */
  lemma {:induction false} RunsThrough<W(!new), V(!new)>(
      p: Program<W, V>, env: Environment<W, V>, k: Key<W>, worlds: seq<World<W, V>>, replies: seq<Reply<V>>, i: nat)
    requires WellFounded(p) && Conversation(p, env, k, worlds, replies) && i <= |replies|
    ensures RunHandler(p, env, k, [], worlds[0]) == RunHandler(p, env, k, replies[..i], worlds[i])
  {
    if i > 0 {
      RunsThrough(p, env, k, worlds, replies, i - 1);
      assert Turn(p, env, k, worlds[i - 1], replies[..i - 1], replies[i - 1], worlds[i]);
      assert replies[..i - 1] + [replies[i - 1]] == replies[..i];
    }
  }

  /**
    Running a handler is having a conversation with it: it runs from `s` to `s'` with answer
    `o` exactly when there is a conversation from `s` to `s'` after which it returns `o`.
  */
  lemma HandlerConverses<W(!new), V(!new)>(
      p: Program<W, V>, env: Environment<W, V>, k: Key<W>, s: World<W, V>, s': World<W, V>, o: Outcome<V>)
    requires WellFounded(p)
    ensures RunHandler(p, env, k, [], s) == (s', o)
       <==> exists worlds, replies :: Ends(p, env, k, s, s', o, worlds, replies)
  {
    if RunHandler(p, env, k, [], s) == (s', o) {
      var worlds, replies := ConversationGoesOn(p, env, k, [s], []);
      assert Ends(p, env, k, s, s', o, worlds, replies);
    }
    if worlds, replies :| Ends(p, env, k, s, s', o, worlds, replies) {
      RunsThrough(p, env, k, worlds, replies, |replies|);
      assert replies[..|replies|] == replies;
    }
  }

  // ----- Calls -----

  /** One attempt of an operation: what the outside world answered, recorded as it is, failures included. */
  ghost predicate Attempted<W(!new), V(!new)>(
      env: Environment<W, V>, a: Action<W>, k: Key<W>, series: Option<Series>, s: World<W, V>, s': World<W, V>)
  {
    var answer := env(s.clock, a);
    && s'.log == s.log + [Report(s.next, k, answer.out, answer.err, [], series)]
    && s'.next == s.next + 1 && s'.clock == s.clock + 1 && s'.trace == s.trace + [k]
  }

  /**
    An operation that is forced, or has no success, is attempted once and its answer, error
    and output alike, is what is recorded and what the caller gets.
  */
  lemma OperationTold<W(!new), V(!new)>(
      p: Program<W, V>, env: Environment<W, V>, k: Key<W>, force: bool, s: World<W, V>)
    requires WellFounded(p) && (force || LatestSuccess(s.log, k).None?)
    ensures var a := Operation(k, force);
            var (s', reply) := Perform(p, env, a, s);
            Attempted(env, a, k, None, s, s') && reply == Single(env(s.clock, a))
  {
  }

  /** Work outside the API passes time and leaves no trace in the log. */
  lemma LocalTold<W(!new), V(!new)>(p: Program<W, V>, env: Environment<W, V>, tag: W, s: World<W, V>)
    requires WellFounded(p)
    ensures Perform(p, env, Local(tag), s)
         == (World(s.log, s.next, s.clock + 1, s.trace), Single(env(s.clock, Local(tag))))
  {
  }

  /**
    A sequence without success has its handler's conversation, and then one report: of the
    handler's own answer, whatever its calls answered, and of the ids recorded meanwhile in
    the order they were recorded.  The caller gets the handler's answer.
  */
  ghost predicate SequenceRan<W(!new), V(!new)>(
      p: Program<W, V>, env: Environment<W, V>, k: Key<W>, s: World<W, V>, s': World<W, V>, o: Outcome<V>,
      worlds: seq<World<W, V>>, replies: seq<Reply<V>>)
    requires WellFounded(p)
  {
    && Conversation(p, env, k, worlds, replies) && p.body(k, replies) == Return(o)
    && worlds[0] == World(s.log, s.next, s.clock, s.trace + [k])
    && var last := worlds[|replies|];
    && s.log <= last.log && |s'.log| == |last.log| + 1 && last.log <= s'.log
    && (s'.next, s'.clock, s'.trace) == (last.next + 1, last.clock, last.trace)
    && var r := s'.log[|last.log|];
    && r.id == last.next && r.key == k && r.output == o.out && r.err == o.err && r.series.None?
    && |r.children| == |last.log| - |s.log|
    && forall i | 0 <= i < |r.children| :: r.children[i] == last.log[|s.log| + i].id
  }

  lemma SequenceTold<W(!new), V(!new)>(p: Program<W, V>, env: Environment<W, V>, k: Key<W>, s: World<W, V>)
    returns (o: Outcome<V>, worlds: seq<World<W, V>>, replies: seq<Reply<V>>)
    requires WellFounded(p) && LatestSuccess(s.log, k).None?
    ensures var (s', reply) := Perform(p, env, Sequence(k), s);
            reply == Single(o) && SequenceRan(p, env, k, s, s', o, worlds, replies)
  {
    var s0 := s.(trace := s.trace + [k]);
    worlds, replies := ConversationGoesOn(p, env, k, [s0], []);
    o := RunHandler(p, env, k, [], s0).1;
  }

  // ----- Series -----

  /** What the source asks of a report to be counted into a series. */
  predicate CountsInto<W(==), V>(r: Report<W, V>, w: W, id: string) {
    r.series.Some? && r.series.value.id == id && r.key.work == w && r.err.None?
  }

  /** `found` are a log's reports that count into a series: those at positions `at`, in log order, none left out. */
  ghost predicate Picked<W(!new), V(!new)>(
      log: seq<Report<W, V>>, w: W, id: string, at: seq<nat>, found: seq<Report<W, V>>)
  {
    && (forall x, y | 0 <= x < y < |at| :: at[x] < at[y])
    && |found| == |at|
    && (forall x | 0 <= x < |at| :: at[x] < |log| && CountsInto(log[at[x]], w, id) && found[x] == log[at[x]])
    && forall i | 0 <= i < |log| && CountsInto(log[i], w, id) :: i in at
  }

  lemma PickedOneMore<W(!new), V(!new)>(
      log: seq<Report<W, V>>, r: Report<W, V>, w: W, id: string, at: seq<nat>, found: seq<Report<W, V>>)
    requires Picked(log, w, id, at, found)
    ensures CountsInto(r, w, id) ==> Picked(log + [r], w, id, at + [|log|], found + [r])
    ensures !CountsInto(r, w, id) ==> Picked(log + [r], w, id, at, found)
  {
    forall i | 0 <= i < |log| && CountsInto((log + [r])[i], w, id) ensures i in at {
      assert (log + [r])[i] == log[i];
    }
  }

  /** The reports of a series are the log's successful ones with its id and call, in log order. */
  lemma {:induction false} SeriesReportsAreAll<W(!new), V(!new)>(log: seq<Report<W, V>>, w: W, id: string)
    returns (at: seq<nat>)
    ensures Picked(log, w, id, at, SeriesReports(log, w, id))
  {
    at := [];
    if log != [] {
      var init, r := log[..|log| - 1], log[|log| - 1];
      at := SeriesReportsAreAll(init, w, id);
      assert log == init + [r];
      AppendedReport(init, r, w, id);
      PickedOneMore(init, r, w, id, at, SeriesReports(init, w, id));
      if CountsInto(r, w, id) { at := at + [|init|]; }
    }
  }

  /** The j-th attempt of a series of which `found` reports were there, as it was answered. */
  ghost predicate IsAttempt<W(!new), V(!new)>(
      env: Environment<W, V>, a: Action<W>, found: nat, s: World<W, V>, r: Report<W, V>, j: nat)
    requires a.OperationN?
  {
    var answer := env(s.clock + j, a);
    r == Report(s.next + j, Key(a.work, ""), answer.out, answer.err, [], Some(Series(a.seriesId, found + j)))
  }

  /** The attempts of a series loop: `reports[j]` is of the j-th of them, and only the last can have failed. */
  ghost predicate SeriesAttempts<W(!new), V(!new)>(
      env: Environment<W, V>, a: Action<W>, found: nat, s: World<W, V>, reports: seq<Report<W, V>>)
    requires a.OperationN?
  {
    && (forall j | 0 <= j < |reports| :: IsAttempt(env, a, found, s, reports[j], j))
    && forall j | 0 <= j < |reports| - 1 :: reports[j].err.None?
  }

  /**
    The loop of a series makes up to `remaining` attempts one after the other, records each
    as it was answered, and stops at the first that fails: the caller then gets that error and
    no results, and otherwise the earlier results followed by the new ones.
  */
  ghost predicate LoopRan<W(!new), V(!new)>(
      env: Environment<W, V>, a: Action<W>, remaining: nat, found: seq<Report<W, V>>, s: World<W, V>,
      s': World<W, V>, results: seq<Report<W, V>>, err: Option<string>, made: seq<Report<W, V>>)
    requires a.OperationN?
  {
    && |made| <= remaining && SeriesAttempts(env, a, |found|, s, made)
    && s'.log == s.log + made && s'.next == s.next + |made| && s'.clock == s.clock + |made|
    && if err.None? then
         |made| == remaining && results == found + made && forall r | r in made :: r.err.None?
       else
         made != [] && results == [] && err == made[|made| - 1].err
  }

  lemma {:induction false} SeriesLoopTold<W(!new), V(!new)>(
      env: Environment<W, V>, a: Action<W>, remaining: nat, found: seq<Report<W, V>>, s: World<W, V>)
    returns (made: seq<Report<W, V>>)
    requires a.OperationN?
    ensures var (s', results, err) := SeriesLoop(env, a, remaining, found, s);
            LoopRan(env, a, remaining, found, s, s', results, err, made)
    decreases remaining
  {
    made := [];
    if remaining > 0 {
      var s1 := Attempt(env, a, Key(a.work, ""), Some(Series(a.seriesId, |found|)), s);
      var r := s1.log[|s.log|];
      made := [r];
      if r.err.None? {
        var later := SeriesLoopTold(env, a, remaining - 1, found + [r], s1);
        made := [r] + later;
        var (s', results, err) := SeriesLoop(env, a, remaining - 1, found + [r], s1);
        OneMoreAttempt(env, a, remaining - 1, found, s, s1, r, s', results, err, later);
      }
    }
  }

  lemma OneMoreAttempt<W(!new), V(!new)>(
      env: Environment<W, V>, a: Action<W>, remaining: nat, found: seq<Report<W, V>>, s: World<W, V>,
      s1: World<W, V>, r: Report<W, V>, s': World<W, V>, results: seq<Report<W, V>>, err: Option<string>,
      later: seq<Report<W, V>>)
    requires a.OperationN? && Attempted(env, a, Key(a.work, ""), Some(Series(a.seriesId, |found|)), s, s1)
    requires r == s1.log[|s.log|] && r.err.None?
    requires LoopRan(env, a, remaining, found + [r], s1, s', results, err, later)
    ensures LoopRan(env, a, remaining + 1, found, s, s', results, err, [r] + later)
  {
    var all := [r] + later;
    forall j | 0 <= j < |all| ensures IsAttempt(env, a, |found|, s, all[j], j) {
      if j > 0 {
        assert all[j] == later[j - 1];
        assert IsAttempt(env, a, |found| + 1, s1, later[j - 1], j - 1);
      }
    }
    assert found + [r] + later == found + all;
    assert s.log + [r] + later == s.log + all;
  }

  /**
    A call for n executions answers with the outputs of the first n reports of its series if
    they are there, and otherwise attempts what is missing and answers with all of them.
  */
  lemma OperationNTold<W(!new), V(!new)>(
      p: Program<W, V>, env: Environment<W, V>, a: Action<W>, s: World<W, V>)
    returns (made: seq<Report<W, V>>)
    requires WellFounded(p) && a.OperationN?
    ensures var (s', reply) := Perform(p, env, a, s);
            SeriesRan(env, a, SeriesReports(s.log, a.work, a.seriesId), s, s', reply, made)
  {
    var found := SeriesReports(s.log, a.work, a.seriesId);
    if |found| > 0 && |found| >= a.n {
      made := [];
    } else {
      made := SeriesLoopTold(env, a, a.n - |found|, found, s);
    }
  }

  ghost predicate SeriesRan<W(!new), V(!new)>(
      env: Environment<W, V>, a: Action<W>, found: seq<Report<W, V>>, s: World<W, V>, s': World<W, V>, reply: Reply<V>,
      made: seq<Report<W, V>>)
    requires a.OperationN?
  {
    && s'.log == s.log + made && SeriesAttempts(env, a, |found|, s, made)
    && |made| <= (if |found| < a.n then a.n - |found| else 0)
    && reply.Several?
    && if reply.err.None? then
         && |reply.outs| == a.n <= |found + made|
         && forall i | 0 <= i < a.n :: reply.outs[i] == (found + made)[i].output
       else
         made != [] && reply.outs == [] && reply.err == made[|made| - 1].err
  }
}
