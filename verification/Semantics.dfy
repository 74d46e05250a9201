/**
  What a call of the operations API does to the report log, as functions on values.
  The methods of module Execute are proved against these functions, and the theorems
  about whole histories are lemmas about them.

  Handlers are data: `body(k, replies)` is what the handler started for key `k` does
  next once its earlier calls have answered `replies`.  `rank` and `width` witness that
  handlers terminate and that no handler re-enters its own key.
*/
module Semantics {
  import opened Prelude

  /** What report reuse is scoped by: definition and input (`work`), and the idempotency key. */
  datatype Key<+W> = Key(work: W, idem: string)

  datatype Series = Series(id: string, order: nat)

  datatype Report<+W, +V> = Report(
    id: nat,
    key: Key<W>,
    output: V,
    err: Option<string>,
    children: seq<nat>,
    series: Option<Series>)

  datatype Outcome<+V> = Outcome(out: V, err: Option<string>)

  /** One call a handler can make. `Local` is work outside the API, such as a read or a wait. */
  datatype Action<+W> =
    | Operation(key: Key<W>, force: bool)
    | OperationN(work: W, seriesId: string, n: nat)
    | Sequence(key: Key<W>)
    | Local(tag: W)

  datatype Reply<+V> =
    | Single(outcome: Outcome<V>)
    | Several(outs: seq<V>, err: Option<string>)
  {
    function Error(): Option<string> {
      match this
      case Single(o) => o.err
      case Several(_, e) => e
    }
  }

  datatype Step<+W, +V> = Return(result: Outcome<V>) | Invoke(action: Action<W>)

  datatype Program<!W, !V> = Program(
    body: (Key<W>, seq<Reply<V>>) -> Step<W, V>,
    rank: Key<W> -> nat,
    width: Key<W> -> nat)

  /** The outside world: the outcome of the attempt made at a given tick of the clock. */
  type Environment<!W, !V> = (nat, Action<W>) -> Outcome<V>

  /** `trace` records every operation or sequence handler that was started, in order. */
  datatype World<+W, +V> = World(
    log: seq<Report<W, V>>,
    next: nat,
    clock: nat,
    trace: seq<Key<W>>)

  function Rank<W, V>(p: Program<W, V>, a: Action<W>): nat {
    match a
    case Operation(k, _) => 1 + p.rank(k)
    case OperationN(w, _, _) => 1 + p.rank(Key(w, ""))
    case Sequence(k) => 1 + p.rank(k)
    case Local(_) => 0
  }

  /** Every handler makes at most `width` calls, each to a key of smaller rank than its own. */
  ghost predicate WellFounded<W(!new), V(!new)>(p: Program<W, V>) {
    forall k: Key<W>, replies: seq<Reply<V>> {:trigger p.body(k, replies)} ::
      p.body(k, replies).Invoke? ==>
        && |replies| < p.width(k)
        && Rank(p, p.body(k, replies).action) <= p.rank(k)
  }

  predicate Matches<W(==), V>(r: Report<W, V>, k: Key<W>) {
    r.key == k && r.err.None?
  }

  /** The newest successful report recorded for `k`. */
  function LatestSuccess<W(==), V>(log: seq<Report<W, V>>, k: Key<W>): Option<Report<W, V>> {
    if log == [] then None
    else if Matches(log[|log| - 1], k) then Some(log[|log| - 1])
    else LatestSuccess(log[..|log| - 1], k)
  }

  predicate InSeries<W(==), V>(r: Report<W, V>, w: W, seriesId: string) {
    r.series.Some? && r.series.value.id == seriesId && r.key.work == w && r.err.None?
  }

  /** The successful reports of a series, oldest first. The idempotency key plays no part. */
  function SeriesReports<W(==), V>(log: seq<Report<W, V>>, w: W, seriesId: string): seq<Report<W, V>> {
    if log == [] then []
    else
      var r := log[|log| - 1];
      SeriesReports(log[..|log| - 1], w, seriesId) + (if InSeries(r, w, seriesId) then [r] else [])
  }

  function Ids<W, V>(log: seq<Report<W, V>>): (ids: seq<nat>)
    ensures |ids| == |log|
  {
    seq(|log|, i requires 0 <= i < |log| => log[i].id)
  }

  function Outputs<W, V>(log: seq<Report<W, V>>): seq<V> {
    seq(|log|, i requires 0 <= i < |log| => log[i].output)
  }

  function Record<W, V>(
      s: World<W, V>, k: Key<W>, o: Outcome<V>, children: seq<nat>, series: Option<Series>): World<W, V>
  {
    s.(log := s.log + [Report(s.next, k, o.out, o.err, children, series)], next := s.next + 1)
  }

  /** Starts the operation handler for `k`: one tick, one trace entry, one report. */
  function Attempt<W, V>(
      env: Environment<W, V>, a: Action<W>, k: Key<W>, series: Option<Series>, s: World<W, V>): World<W, V>
  {
    Record(s.(clock := s.clock + 1, trace := s.trace + [k]), k, env(s.clock, a), [], series)
  }

  function ExecuteOperation<W(==), V>(
      env: Environment<W, V>, k: Key<W>, force: bool, s: World<W, V>): (World<W, V>, Report<W, V>)
  {
    var found := LatestSuccess(s.log, k);
    if !force && found.Some? then (s, found.value)
    else
      var s' := Attempt(env, Operation(k, force), k, None, s);
      (s', s'.log[|s.log|])
  }

  function SeriesLoop<W, V>(
      env: Environment<W, V>, a: Action<W>, remaining: nat, results: seq<Report<W, V>>, s: World<W, V>)
    : (r: (World<W, V>, seq<Report<W, V>>, Option<string>))
    requires a.OperationN?
    ensures s.log <= r.0.log
    decreases remaining
  {
    if remaining == 0 then (s, results, None)
    else
      var s' := Attempt(env, a, Key(a.work, ""), Some(Series(a.seriesId, |results|)), s);
      var r := s'.log[|s.log|];
      if r.err.Some? then (s', [], r.err)
      else SeriesLoop(env, a, remaining - 1, results + [r], s')
  }

  function ExecuteOperationN<W(==), V>(env: Environment<W, V>, a: Action<W>, s: World<W, V>)
    : (r: (World<W, V>, seq<Report<W, V>>, Option<string>))
    requires a.OperationN?
    ensures s.log <= r.0.log
  {
    var found := SeriesReports(s.log, a.work, a.seriesId);
    if |found| > 0 && |found| >= a.n then (s, found[..a.n], None)
    else SeriesLoop(env, a, a.n - |found|, found, s)
  }

  function Perform<W(==,!new), V(!new)>(p: Program<W, V>, env: Environment<W, V>, a: Action<W>, s: World<W, V>)
    : (r: (World<W, V>, Reply<V>))
    requires WellFounded(p)
    ensures s.log <= r.0.log
    decreases Rank(p, a), 1, 0
  {
    match a
    case Operation(k, force) =>
      var (s', r) := ExecuteOperation(env, k, force, s);
      (s', Single(Outcome(r.output, r.err)))
    case OperationN(_, _, _) =>
      var (s', rs, err) := ExecuteOperationN(env, a, s);
      (s', Several(Outputs(rs), err))
    case Sequence(k) =>
      var found := LatestSuccess(s.log, k);
      if found.Some? then (s, Single(Outcome(found.value.output, None)))
      else
        var (s', o) := RunHandler(p, env, k, [], s.(trace := s.trace + [k]));
        (Record(s', k, o, Ids(s'.log[|s.log|..]), None), Single(o))
    case Local(_) =>
      (s.(clock := s.clock + 1), Single(env(s.clock, a)))
  }

  function RunHandler<W(==,!new), V(!new)>(
      p: Program<W, V>, env: Environment<W, V>, k: Key<W>, replies: seq<Reply<V>>, s: World<W, V>)
    : (r: (World<W, V>, Outcome<V>))
    requires WellFounded(p)
    ensures s.log <= r.0.log
    decreases 1 + p.rank(k), 0, p.width(k) - |replies|
  {
    match p.body(k, replies)
    case Return(o) => (s, o)
    case Invoke(a) =>
      var (s', reply) := Perform(p, env, a, s);
      RunHandler(p, env, k, replies + [reply], s')
  }
}
