/**
  The report graph: what a log built by the engine looks like, and what collecting the
  reports of a sequence returns on it.
*/
module ReportGraph {
  import opened Prelude
  import opened Semantics

  /** Position at which the run recorded by report `i` began. */
  function Start<W, V>(log: seq<Report<W, V>>, i: nat): int
    requires i < |log|
  {
    i - |log[i].children|
  }

  /** The children of report `i` are the reports logged from its start up to it, newest last. */
  ghost predicate ChildrenAreRun<W(!new), V(!new)>(log: seq<Report<W, V>>, i: nat)
    requires i < |log|
  {
    0 <= Start(log, i) && log[i].children == Ids(log[Start(log, i)..i])
  }

  /** Ids are fresh, children are the reports of the run, and runs nest. */
  ghost predicate WellShaped<W(!new), V(!new)>(log: seq<Report<W, V>>, next: nat) {
    && (forall i | 0 <= i < |log| :: log[i].id < next)
    && (forall i, j | 0 <= i < j < |log| :: log[i].id != log[j].id)
    && (forall i | 0 <= i < |log| :: ChildrenAreRun(log, i))
    && (forall i, j | 0 <= i < j < |log| && Start(log, j) <= i :: Start(log, j) <= Start(log, i))
  }

  /** Nothing logged after `lo` reaches back before it. */
  ghost predicate StartsFrom<W(!new), V(!new)>(log: seq<Report<W, V>>, lo: nat) {
    forall i | lo <= i < |log| :: lo <= Start(log, i)
  }

  lemma RecordKeepsShape<W(!new), V(!new)>(s: World<W, V>, lo: nat, k: Key<W>, o: Outcome<V>, series: Option<Series>)
    requires WellShaped(s.log, s.next) && lo <= |s.log| && StartsFrom(s.log, lo)
    ensures var s' := Record(s, k, o, Ids(s.log[lo..]), series);
            && WellShaped(s'.log, s'.next) && Start(s'.log, |s.log|) == lo
            && forall i | 0 <= i < |s.log| :: Start(s'.log, i) == Start(s.log, i)
  {
    var s' := Record(s, k, o, Ids(s.log[lo..]), series);
    assert s'.log[lo..|s.log|] == s.log[lo..];
    assert forall i | 0 <= i < |s.log| :: Start(s'.log, i) == Start(s.log, i);
    forall i | 0 <= i < |s.log| ensures ChildrenAreRun(s'.log, i) {
      assert ChildrenAreRun(s.log, i);
      assert s'.log[Start(s.log, i)..i] == s.log[Start(s.log, i)..i];
    }
  }

  lemma AttemptKeepsShape<W(!new), V(!new)>(
      env: Environment<W, V>, a: Action<W>, k: Key<W>, series: Option<Series>, s: World<W, V>, lo: nat)
    requires WellShaped(s.log, s.next) && lo <= |s.log| && StartsFrom(s.log, lo)
    ensures var s' := Attempt(env, a, k, series, s);
            WellShaped(s'.log, s'.next) && StartsFrom(s'.log, lo)
  {
    assert s.log[|s.log|..] == [];
    RecordKeepsShape(s.(clock := s.clock + 1, trace := s.trace + [k]), |s.log|, k, env(s.clock, a), series);
  }

  lemma {:induction false} SeriesKeepsShape<W(!new), V(!new)>(
      env: Environment<W, V>, a: Action<W>, remaining: nat, results: seq<Report<W, V>>, s: World<W, V>, lo: nat)
    requires a.OperationN? && lo <= |s.log|
    requires WellShaped(s.log, s.next) && StartsFrom(s.log, lo)
    ensures var s' := SeriesLoop(env, a, remaining, results, s).0;
            WellShaped(s'.log, s'.next) && StartsFrom(s'.log, lo)
    decreases remaining
  {
    if remaining > 0 {
      var series := Some(Series(a.seriesId, |results|));
      AttemptKeepsShape(env, a, Key(a.work, ""), series, s, lo);
      var s' := Attempt(env, a, Key(a.work, ""), series, s);
      SeriesKeepsShape(env, a, remaining - 1, results + [s'.log[|s.log|]], s', lo);
    }
  }

  lemma SequenceReportKeepsShape<W(!new), V(!new)>(s: World<W, V>, s1: World<W, V>, lo: nat, k: Key<W>, o: Outcome<V>)
    requires lo <= |s.log| && s.log <= s1.log && WellShaped(s1.log, s1.next)
    requires StartsFrom(s1.log, |s.log|) && StartsFrom(s1.log, lo)
    ensures var s' := Record(s1, k, o, Ids(s1.log[|s.log|..]), None);
            WellShaped(s'.log, s'.next) && StartsFrom(s'.log, lo)
  {
    RecordKeepsShape(s1, |s.log|, k, o, None);
  }

  /** Every call keeps the log well shaped, and its reports reach back no further than its own start. */
  lemma {:induction false} PerformKeepsShape<W(!new), V(!new)>(
      p: Program<W, V>, env: Environment<W, V>, a: Action<W>, s: World<W, V>, lo: nat)
    requires WellFounded(p) && lo <= |s.log|
    requires WellShaped(s.log, s.next) && StartsFrom(s.log, lo)
    ensures var s' := Perform(p, env, a, s).0;
            WellShaped(s'.log, s'.next) && StartsFrom(s'.log, lo)
    decreases Rank(p, a), 1, 0
  {
    match a
    case Operation(k, force) => AttemptKeepsShape(env, a, k, None, s, lo);
    case OperationN(w, id, n) =>
      var found := SeriesReports(s.log, w, id);
      if |found| < n || |found| == 0 { SeriesKeepsShape(env, a, n - |found|, found, s, lo); }
    case Sequence(k) =>
      if LatestSuccess(s.log, k).None? {
        var s0 := s.(trace := s.trace + [k]);
        HandlerKeepsShape(p, env, k, [], s0, |s.log|);
        HandlerKeepsShape(p, env, k, [], s0, lo);
        SequenceReportKeepsShape(s, RunHandler(p, env, k, [], s0).0, lo, k, RunHandler(p, env, k, [], s0).1);
      }
    case Local(_) =>
  }

  lemma {:induction false} HandlerKeepsShape<W(!new), V(!new)>(
      p: Program<W, V>, env: Environment<W, V>, k: Key<W>, replies: seq<Reply<V>>, s: World<W, V>, lo: nat)
    requires WellFounded(p) && lo <= |s.log|
    requires WellShaped(s.log, s.next) && StartsFrom(s.log, lo)
    ensures var s' := RunHandler(p, env, k, replies, s).0;
            WellShaped(s'.log, s'.next) && StartsFrom(s'.log, lo)
    decreases 1 + p.rank(k), 0, p.width(k) - |replies|
  {
    match p.body(k, replies)
    case Return(_) =>
    case Invoke(a) =>
      PerformKeepsShape(p, env, a, s, lo);
      var (s', reply) := Perform(p, env, a, s);
      HandlerKeepsShape(p, env, k, replies + [reply], s', lo);
  }

  // ----- Collecting the reports of a run -----

  /** Depth-first, children before parent: what collecting from report `i` lists. */
  function Collect<W(!new), V(!new)>(log: seq<Report<W, V>>, next: nat, i: nat): seq<Report<W, V>>
    requires WellShaped(log, next) && i < |log|
    decreases i, 0
  {
    assert ChildrenAreRun(log, i);
    CollectRange(log, next, Start(log, i), i) + [log[i]]
  }

  function CollectRange<W(!new), V(!new)>(log: seq<Report<W, V>>, next: nat, lo: nat, hi: nat): seq<Report<W, V>>
    requires WellShaped(log, next) && lo <= hi <= |log|
    decreases hi, 0, hi - lo
  {
    if lo == hi then []
    else CollectRange(log, next, lo, hi - 1) + Collect(log, next, hi - 1)
  }

  function Pow2(n: nat): nat {
    if n == 0 then 1 else 2 * Pow2(n - 1)
  }

  /** How many reports before position `hi` list report `p` among their children. */
  function Enclosing<W, V>(log: seq<Report<W, V>>, p: nat, hi: nat): nat
    requires p < |log| && hi <= |log|
  {
    if hi == 0 then 0
    else Enclosing(log, p, hi - 1) + (if log[p].id in log[hi - 1].children then 1 else 0)
  }

  lemma ListedIffInRun<W(!new), V(!new)>(log: seq<Report<W, V>>, next: nat, p: nat, i: nat)
    requires WellShaped(log, next) && p < |log| && i < |log|
    ensures log[p].id in log[i].children <==> Start(log, i) <= p < i
  {
    assert ChildrenAreRun(log, i);
    var run := log[Start(log, i)..i];
    if Start(log, i) <= p < i {
      assert Ids(run)[p - Start(log, i)] == log[p].id;
    }
    if log[p].id in log[i].children {
      var x :| 0 <= x < |run| && Ids(run)[x] == log[p].id;
      assert run[x] == log[Start(log, i) + x];
    }
  }

  lemma {:induction false} NothingEnclosesTheFuture<W(!new), V(!new)>(
      log: seq<Report<W, V>>, next: nat, p: nat, hi: nat)
    requires WellShaped(log, next) && hi <= p + 1 <= |log|
    ensures Enclosing(log, p, hi) == 0
  {
    if hi > 0 {
      ListedIffInRun(log, next, p, hi - 1);
      NothingEnclosesTheFuture(log, next, p, hi - 1);
    }
  }

  /** How often report `p` is in the list collected from a range. */
  ghost function Times<W(!new), V(!new)>(log: seq<Report<W, V>>, next: nat, lo: nat, hi: nat, p: nat): nat
    requires WellShaped(log, next) && lo <= hi <= |log| && p < |log|
  {
    multiset(CollectRange(log, next, lo, hi))[log[p]]
  }

  lemma TimesUnfolds<W(!new), V(!new)>(log: seq<Report<W, V>>, next: nat, lo: nat, hi: nat, p: nat)
    requires WellShaped(log, next) && lo < hi <= |log| && p < |log|
    ensures 0 <= Start(log, hi - 1)
    ensures Times(log, next, lo, hi, p)
         == Times(log, next, lo, hi - 1, p) + Times(log, next, Start(log, hi - 1), hi - 1, p)
            + if p == hi - 1 then 1 else 0
  {
    var i := hi - 1;
    assert ChildrenAreRun(log, i);
    var outer, inner := CollectRange(log, next, lo, i), CollectRange(log, next, Start(log, i), i);
    assert CollectRange(log, next, lo, hi) == outer + (inner + [log[i]]);
    assert p != i ==> log[p].id != log[i].id;
  }

  /** The value `Times` has, on ranges out of which nothing reaches. */
  ghost predicate Doubles<W(!new), V(!new)>(log: seq<Report<W, V>>, next: nat, lo: nat, hi: nat, p: nat)
    requires WellShaped(log, next) && lo <= hi <= |log| && p < |log|
  {
    Times(log, next, lo, hi, p) == if lo <= p < hi then Pow2(Enclosing(log, p, hi)) else 0
  }

  lemma DoublesOneMore<W(!new), V(!new)>(log: seq<Report<W, V>>, next: nat, lo: nat, hi: nat, p: nat)
    requires WellShaped(log, next) && lo < hi <= |log| && p < |log| && lo <= Start(log, hi - 1)
    requires Doubles(log, next, lo, hi - 1, p) && Doubles(log, next, Start(log, hi - 1), hi - 1, p)
    ensures Doubles(log, next, lo, hi, p)
  {
    TimesUnfolds(log, next, lo, hi, p);
    ListedIffInRun(log, next, p, hi - 1);
    if p == hi - 1 {
      NothingEnclosesTheFuture(log, next, p, hi);
    }
  }

  /** In the list collected from a range, a report of the range occurs once per nesting, doubling each time. */
  lemma {:induction false} RangeMultiplicity<W(!new), V(!new)>(
      log: seq<Report<W, V>>, next: nat, lo: nat, hi: nat, p: nat)
    requires WellShaped(log, next) && lo <= hi <= |log| && p < |log|
    requires forall i | lo <= i < hi :: lo <= Start(log, i)
    ensures Doubles(log, next, lo, hi, p)
    decreases hi, 1, hi - lo
  {
    if lo < hi {
      assert ChildrenAreRun(log, hi - 1);
      RangeMultiplicity(log, next, lo, hi - 1, p);
      RangeMultiplicity(log, next, Start(log, hi - 1), hi - 1, p);
      DoublesOneMore(log, next, lo, hi, p);
    }
  }

  /**
    Collecting from report `j` lists exactly the reports of its run and itself.  A report
    nested under d executed sequences (those up to and including `j` that list it) is
    there 2^(d-1) times, because every enclosing sequence lists it again.
  */
  lemma {:induction false} CollectMultiplicity<W(!new), V(!new)>(log: seq<Report<W, V>>, next: nat, j: nat, p: nat)
    requires WellShaped(log, next) && j < |log| && p < |log|
    ensures var times := multiset(Collect(log, next, j))[log[p]];
            if p == j then times == 1
            else if log[p].id in log[j].children then
              Enclosing(log, p, j + 1) >= 1 && times == Pow2(Enclosing(log, p, j + 1) - 1)
            else times == 0
  {
    assert ChildrenAreRun(log, j);
    RangeMultiplicity(log, next, Start(log, j), j, p);
    ListedIffInRun(log, next, p, j);
  }

  /** Every child id occurs earlier in the list. */
  ghost predicate ChildrenFirst<W(!new), V(!new)>(reports: seq<Report<W, V>>) {
    forall x, c: nat | 0 <= x < |reports| && c in reports[x].children :: Has(reports[..x], c)
  }

  ghost predicate Has<W(!new), V(!new)>(reports: seq<Report<W, V>>, id: nat) {
    exists y :: 0 <= y < |reports| && reports[y].id == id
  }

  lemma HasGrows<W(!new), V(!new)>(a: seq<Report<W, V>>, b: seq<Report<W, V>>, id: nat)
    requires Has(a, id) || Has(b, id)
    ensures Has(a + b, id)
  {
    if Has(a, id) {
      var y :| 0 <= y < |a| && a[y].id == id;
      assert (a + b)[y].id == id;
    } else {
      var y :| 0 <= y < |b| && b[y].id == id;
      assert (a + b)[|a| + y].id == id;
    }
  }

  lemma ChildrenFirstConcat<W(!new), V(!new)>(a: seq<Report<W, V>>, b: seq<Report<W, V>>)
    requires ChildrenFirst(a)
    requires forall x, c: nat | 0 <= x < |b| && c in b[x].children :: Has(a + b[..x], c)
    ensures ChildrenFirst(a + b)
  {
    var ab := a + b;
    forall x, c: nat | 0 <= x < |ab| && c in ab[x].children ensures Has(ab[..x], c) {
      if x < |a| {
        assert ab[..x] == a[..x];
      } else {
        assert ab[..x] == a + b[..x - |a|];
      }
    }
  }

  lemma {:induction false} RangeChildrenFirst<W(!new), V(!new)>(log: seq<Report<W, V>>, next: nat, lo: nat, hi: nat)
    requires WellShaped(log, next) && lo <= hi <= |log|
    ensures ChildrenFirst(CollectRange(log, next, lo, hi))
    ensures forall i | lo <= i < hi :: Has(CollectRange(log, next, lo, hi), log[i].id)
    decreases hi, 1, hi - lo
  {
    if lo < hi {
      var before := CollectRange(log, next, lo, hi - 1);
      var last := Collect(log, next, hi - 1);
      RangeChildrenFirst(log, next, lo, hi - 1);
      CollectChildrenFirst(log, next, hi - 1);
      forall x, c: nat | 0 <= x < |last| && c in last[x].children ensures Has(before + last[..x], c) {
        HasGrows(before, last[..x], c);
      }
      ChildrenFirstConcat(before, last);
      forall i | lo <= i < hi ensures Has(before + last, log[i].id) {
        if i == hi - 1 { assert last[|last| - 1] == log[i]; assert Has(last, log[i].id); }
        HasGrows(before, last, log[i].id);
      }
    }
  }

  /** Reports come after all their children, at every depth. */
  lemma {:induction false} CollectChildrenFirst<W(!new), V(!new)>(log: seq<Report<W, V>>, next: nat, i: nat)
    requires WellShaped(log, next) && i < |log|
    ensures ChildrenFirst(Collect(log, next, i))
    decreases i, 2
  {
    assert ChildrenAreRun(log, i);
    var run := log[Start(log, i)..i];
    var inner := CollectRange(log, next, Start(log, i), i);
    RangeChildrenFirst(log, next, Start(log, i), i);
    forall x, c: nat | 0 <= x < 1 && c in [log[i]][x].children ensures Has(inner + [log[i]][..x], c) {
      var y :| 0 <= y < |run| && Ids(run)[y] == c;
      assert run[y] == log[Start(log, i) + y];
      assert inner + [log[i]][..x] == inner;
    }
    ChildrenFirstConcat(inner, [log[i]]);
  }

  lemma PowPositive(n: nat)
    ensures Pow2(n) > 0
  {
  }

  lemma {:induction false} CollectStaysInLog<W(!new), V(!new)>(log: seq<Report<W, V>>, next: nat, i: nat)
    requires WellShaped(log, next) && i < |log|
    ensures forall r | r in Collect(log, next, i) :: r in log
    decreases i, 2
  {
    assert ChildrenAreRun(log, i);
    RangeStaysInLog(log, next, Start(log, i), i);
  }

  lemma {:induction false} RangeStaysInLog<W(!new), V(!new)>(log: seq<Report<W, V>>, next: nat, lo: nat, hi: nat)
    requires WellShaped(log, next) && lo <= hi <= |log|
    ensures forall r | r in CollectRange(log, next, lo, hi) :: r in log
    decreases hi, 1, hi - lo
  {
    if lo < hi {
      RangeStaysInLog(log, next, lo, hi - 1);
      CollectStaysInLog(log, next, hi - 1);
    }
  }

  /** What is collected from report `j` is, as a set, its run and itself. */
  lemma CollectIsRun<W(!new), V(!new)>(log: seq<Report<W, V>>, next: nat, j: nat, r: Report<W, V>)
    requires WellShaped(log, next) && j < |log|
    ensures 0 <= Start(log, j)
    ensures r in Collect(log, next, j) <==> r in log[Start(log, j)..j + 1]
  {
    assert ChildrenAreRun(log, j);
    var all, run := Collect(log, next, j), log[Start(log, j)..j + 1];
    CollectStaysInLog(log, next, j);
    if r in log {
      var p :| 0 <= p < |log| && log[p] == r;
      CollectMultiplicity(log, next, j, p);
      ListedIffInRun(log, next, p, j);
      if log[p].id in log[j].children {
        PowPositive(Enclosing(log, p, j + 1) - 1);
      }
      assert r in all <==> multiset(all)[r] > 0;
      if Start(log, j) <= p <= j {
        assert run[p - Start(log, j)] == r;
      }
      if r in run {
        var x :| 0 <= x < |run| && run[x] == r;
        assert log[Start(log, j) + x] == r;
      }
    }
  }

  // ----- The order of what is collected -----

  /** A list without repeats, keeping first occurrences. */
  function FirstOccurrences<T(==)>(s: seq<T>): seq<T> {
    if s == [] then []
    else
      var before := FirstOccurrences(s[..|s| - 1]);
      if s[|s| - 1] in before then before else before + [s[|s| - 1]]
  }

  lemma {:induction false} FirstOccurrencesKeepsMembers<T>(s: seq<T>)
    ensures forall x :: x in FirstOccurrences(s) <==> x in s
  {
    if s != [] {
      FirstOccurrencesKeepsMembers(s[..|s| - 1]);
      assert s == s[..|s| - 1] + [s[|s| - 1]];
    }
  }

  /** Adding a stretch in which only `z` is new. */
  lemma {:induction false} OnlyOneNew<T>(s: seq<T>, t: seq<T>, z: T)
    requires z !in s && forall y | y in t :: y in s || y == z
    ensures FirstOccurrences(s + t) == FirstOccurrences(s) + (if z in t then [z] else [])
  {
    FirstOccurrencesKeepsMembers(s);
    if t == [] {
      assert s + t == s;
    } else {
      var init, last := t[..|t| - 1], t[|t| - 1];
      assert t == init + [last] && (s + t)[..|s + t| - 1] == s + init;
      OnlyOneNew(s, init, z);
    }
  }

  lemma StretchGrows<T>(log: seq<T>, lo: nat, hi: nat)
    requires lo < hi <= |log|
    ensures log[lo..hi] == log[lo..hi - 1] + [log[hi - 1]]
  {
  }

  /** A report is not among those before it. */
  lemma NewAt<W(!new), V(!new)>(log: seq<Report<W, V>>, next: nat, lo: nat, i: nat)
    requires WellShaped(log, next) && lo <= i < |log|
    ensures log[i] !in log[lo..i]
  {
    forall x | 0 <= x < i - lo ensures log[lo..i][x] != log[i] { assert log[lo + x].id != log[i].id; }
  }

  lemma RunHolds<W(!new), V(!new)>(log: seq<Report<W, V>>, next: nat, j: nat)
    requires WellShaped(log, next) && j < |log|
    ensures 0 <= Start(log, j) <= j && forall i | Start(log, j) <= i < j :: Start(log, j) <= Start(log, i)
    ensures Collect(log, next, j) == CollectRange(log, next, Start(log, j), j) + [log[j]]
  {
    assert ChildrenAreRun(log, j);
  }

  /** What is collected from a report is itself and reports of its run. */
  lemma CollectIsNear<W(!new), V(!new)>(
      log: seq<Report<W, V>>, next: nat, lo: nat, i: nat, y: Report<W, V>)
    requires WellShaped(log, next) && lo <= i < |log| && lo <= Start(log, i)
    ensures y in Collect(log, next, i) ==> y in log[lo..i] || y == log[i]
    ensures log[i] in Collect(log, next, i)
  {
    CollectIsRun(log, next, i, y);
    RunHolds(log, next, i);
    var run := log[Start(log, i)..i + 1];
    if y in run {
      var x :| 0 <= x < |run| && run[x] == y;
      var at := Start(log, i) + x;
      if at < i { assert log[lo..i][at - lo] == y; }
    }
  }

  /** One more report collected: only it is new. */
  lemma CollectAddsOne<W(!new), V(!new)>(log: seq<Report<W, V>>, next: nat, lo: nat, hi: nat, s: seq<Report<W, V>>)
    requires WellShaped(log, next) && lo < hi <= |log| && lo <= Start(log, hi - 1)
    requires FirstOccurrences(s) == log[lo..hi - 1]
    ensures FirstOccurrences(s + Collect(log, next, hi - 1)) == log[lo..hi]
  {
    var i := hi - 1;
    FirstOccurrencesKeepsMembers(s);
    forall y | y in Collect(log, next, i) ensures y in s || y == log[i] { CollectIsNear(log, next, lo, i, y); }
    CollectIsNear(log, next, lo, i, log[i]);
    NewAt(log, next, lo, i);
    OnlyOneNew(s, Collect(log, next, i), log[i]);
    StretchGrows(log, lo, hi);
  }

  lemma {:induction false} RangeInLogOrder<W(!new), V(!new)>(log: seq<Report<W, V>>, next: nat, lo: nat, hi: nat)
    requires WellShaped(log, next) && lo <= hi <= |log|
    requires forall i | lo <= i < hi :: lo <= Start(log, i)
    ensures FirstOccurrences(CollectRange(log, next, lo, hi)) == log[lo..hi]
    decreases hi - lo
  {
    if lo < hi {
      RangeInLogOrder(log, next, lo, hi - 1);
      CollectAddsOne(log, next, lo, hi, CollectRange(log, next, lo, hi - 1));
    }
  }

  /** Repeats dropped, what is collected from report `j` is its run and itself, in the order of the log. */
  lemma CollectInLogOrder<W(!new), V(!new)>(log: seq<Report<W, V>>, next: nat, j: nat)
    requires WellShaped(log, next) && j < |log|
    ensures 0 <= Start(log, j)
    ensures FirstOccurrences(Collect(log, next, j)) == log[Start(log, j)..j + 1]
  {
    RunHolds(log, next, j);
    var from := Start(log, j);
    var inner := CollectRange(log, next, from, j);
    RangeInLogOrder(log, next, from, j);
    FirstOccurrencesKeepsMembers(inner);
    NewAt(log, next, from, j);
    OnlyOneNew(inner, [log[j]], log[j]);
    StretchGrows(log, from, j + 1);
  }

  /** One list after the other. */
  function Concat<T>(lists: seq<seq<T>>): seq<T> {
    if lists == [] then [] else lists[0] + Concat(lists[1..])
  }

  lemma {:induction false} ConcatLast<T>(lists: seq<seq<T>>, last: seq<T>)
    ensures Concat(lists + [last]) == Concat(lists) + last
  {
    if lists == [] {
      assert lists + [last] == [last] && [last][1..] == [];
    } else {
      ConcatLast(lists[1..], last);
      assert (lists + [last])[1..] == lists[1..] + [last];
    }
  }

  /** What is collected from the reports of a range, one list each. */
  function Collections<W(!new), V(!new)>(log: seq<Report<W, V>>, next: nat, lo: nat, hi: nat): seq<seq<Report<W, V>>>
    requires WellShaped(log, next) && lo <= hi <= |log|
  {
    seq(hi - lo, c requires 0 <= c < hi - lo => Collect(log, next, lo + c))
  }

  lemma CollectionsLast<W(!new), V(!new)>(log: seq<Report<W, V>>, next: nat, lo: nat, hi: nat)
    requires WellShaped(log, next) && lo < hi <= |log|
    ensures Collections(log, next, lo, hi) == Collections(log, next, lo, hi - 1) + [Collect(log, next, hi - 1)]
  {
  }

  lemma {:induction false} RangeIsConcat<W(!new), V(!new)>(log: seq<Report<W, V>>, next: nat, lo: nat, hi: nat)
    requires WellShaped(log, next) && lo <= hi <= |log|
    ensures CollectRange(log, next, lo, hi) == Concat(Collections(log, next, lo, hi))
    decreases hi - lo
  {
    if lo < hi {
      RangeIsConcat(log, next, lo, hi - 1);
      ConcatLast(Collections(log, next, lo, hi - 1), Collect(log, next, hi - 1));
      CollectionsLast(log, next, lo, hi);
    }
  }

  /** Repeats kept, it is what is collected from each child in turn, the c-th child's list c-th, and then itself. */
  lemma CollectGoesChildByChild<W(!new), V(!new)>(
      log: seq<Report<W, V>>, next: nat, j: nat, lists: seq<seq<Report<W, V>>>)
    requires WellShaped(log, next) && j < |log| && |lists| == |log[j].children|
    requires 0 <= Start(log, j)
    requires forall c | 0 <= c < |lists| ::
               log[Start(log, j) + c].id == log[j].children[c] && lists[c] == Collect(log, next, Start(log, j) + c)
    ensures Collect(log, next, j) == Concat(lists) + [log[j]]
  {
    RangeIsConcat(log, next, Start(log, j), j);
    assert lists == Collections(log, next, Start(log, j), j);
  }

  /** What a sequence run leaves, put together from its handler's run and its report. */
  lemma SequenceIsRecorded<W(!new), V(!new)>(
      p: Program<W, V>, env: Environment<W, V>, k: Key<W>, s: World<W, V>, s1: World<W, V>, o: Outcome<V>)
    requires WellFounded(p) && LatestSuccess(s.log, k).None?
    requires RunHandler(p, env, k, [], s.(trace := s.trace + [k])) == (s1, o)
    ensures s.log <= s1.log
    ensures Perform(p, env, Sequence(k), s) == (Record(s1, k, o, Ids(s1.log[|s.log|..]), None), Single(o))
  {
  }

  /** An executed sequence ends with its own report, whose run is the call. */
  lemma SequenceReportSpansCall<W(!new), V(!new)>(p: Program<W, V>, env: Environment<W, V>, k: Key<W>, s: World<W, V>)
    requires WellFounded(p) && WellShaped(s.log, s.next)
    requires LatestSuccess(s.log, k).None?
    ensures var s' := Perform(p, env, Sequence(k), s).0;
            && WellShaped(s'.log, s'.next) && |s'.log| > |s.log|
            && s'.log[|s'.log| - 1].key == k && Start(s'.log, |s'.log| - 1) == |s.log|
  {
    var s0 := s.(trace := s.trace + [k]);
    var (s1, o) := RunHandler(p, env, k, [], s0);
    HandlerKeepsShape(p, env, k, [], s0, |s.log|);
    RecordKeepsShape(s1, |s.log|, k, o, None);
    SequenceIsRecorded(p, env, k, s, s1, o);
  }

  /** That report collects exactly what was logged during the call. */
  lemma SequenceCollectsItsRun<W(!new), V(!new)>(
      p: Program<W, V>, env: Environment<W, V>, k: Key<W>, s: World<W, V>, r: Report<W, V>)
    requires WellFounded(p) && WellShaped(s.log, s.next)
    requires LatestSuccess(s.log, k).None?
    ensures var s' := Perform(p, env, Sequence(k), s).0;
            && WellShaped(s'.log, s'.next) && |s'.log| > |s.log|
            && (r in Collect(s'.log, s'.next, |s'.log| - 1) <==> r in s'.log[|s.log|..])
            && FirstOccurrences(Collect(s'.log, s'.next, |s'.log| - 1)) == s'.log[|s.log|..]
  {
    SequenceReportSpansCall(p, env, k, s);
    var s' := Perform(p, env, Sequence(k), s).0;
    RunToTheEnd(s'.log, s'.next, |s.log|, r);
  }

  lemma RunToTheEnd<W(!new), V(!new)>(log: seq<Report<W, V>>, next: nat, from: nat, r: Report<W, V>)
    requires WellShaped(log, next) && from < |log| && Start(log, |log| - 1) == from
    ensures r in Collect(log, next, |log| - 1) <==> r in log[from..]
    ensures FirstOccurrences(Collect(log, next, |log| - 1)) == log[from..]
  {
    CollectIsRun(log, next, |log| - 1, r);
    CollectInLogOrder(log, next, |log| - 1);
    assert log[from..|log|] == log[from..];
  }
}
