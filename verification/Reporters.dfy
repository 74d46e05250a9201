/** The reporters: an append-only log in memory, and wrappers that remember what was added since they were made. */
module Reporters {
  import opened Prelude
  import opened Semantics
  import opened ReportGraph

  /** The position of the first report with an id, as the scans of the memory reporter find it. */
  function Find<W, V>(log: seq<Report<W, V>>, id: nat): Option<nat> {
    if log == [] then None
    else if log[0].id == id then Some(0)
    else
      match Find(log[1..], id)
      case None => None
      case Some(i) => Some(i + 1)
  }

  lemma {:induction false} FindIsFirst<W, V>(log: seq<Report<W, V>>, id: nat)
    ensures match Find(log, id)
            case None => forall i | 0 <= i < |log| :: log[i].id != id
            case Some(i) => i < |log| && log[i].id == id && forall j | 0 <= j < i :: log[j].id != id
  {
    if log != [] && log[0].id != id {
      FindIsFirst(log[1..], id);
      assert forall i | 0 < i < |log| :: log[i] == log[1..][i - 1];
    }
  }

  lemma AppendAssociates<T>(a: seq<T>, b: seq<T>, c: seq<T>)
    ensures a + b + c == a + (b + c)
  {
  }

  /** The c-th child of a report is found where its run has it. */
  lemma ChildFound<W(!new), V(!new)>(log: seq<Report<W, V>>, next: nat, i: nat, c: nat)
    requires WellShaped(log, next) && i < |log| && c < |log[i].children|
    ensures 0 <= Start(log, i) + c < i && Find(log, log[i].children[c]) == Some((Start(log, i) + c) as nat)
  {
    assert ChildrenAreRun(log, i);
    var at := Start(log, i) + c;
    assert log[i].children[c] == log[Start(log, i)..i][c].id == log[at].id;
    FindIsFirst(log, log[i].children[c]);
  }

  class MemoryReporter<W(!new), V(!new)> {
    var reports: seq<Report<W, V>>

    constructor (reports: seq<Report<W, V>>)
      ensures this.reports == reports
    {
      this.reports := reports;
    }

    method AddReport(r: Report<W, V>)
      modifies this
      ensures reports == old(reports) + [r]
    {
      reports := reports + [r];
    }

    /** The first report with the id, or nothing when there is none. */
    method GetReport(id: nat) returns (r: Option<Report<W, V>>)
      ensures match r
              case None => forall i | 0 <= i < |reports| :: reports[i].id != id
              case Some(found) => exists i | 0 <= i < |reports| ::
                reports[i] == found && found.id == id && forall j | 0 <= j < i :: reports[j].id != id
    {
      for i := 0 to |reports|
        invariant forall j | 0 <= j < i :: reports[j].id != id
      {
        if reports[i].id == id { return Some(reports[i]); }
      }
      return None;
    }

    /** Collects a report and, before it, everything its run added; fails on an id that is not in the log. */
    method GetExecutionReports(ghost next: nat, id: nat) returns (r: Option<seq<Report<W, V>>>)
      requires WellShaped(reports, next)
      ensures match Find(reports, id)
              case None => r == None
              case Some(i) =>
                && i < |reports| && r == Some(Collect(reports, next, i))
                && 0 <= Start(reports, i) && FirstOccurrences(r.value) == reports[Start(reports, i)..i + 1]
    {
      FindIsFirst(reports, id);
      r := GetReportsRecursively(next, |reports|, id, []);
      if r.Some? {
        var i := Find(reports, id).value;
        assert [] + Collect(reports, next, i) == Collect(reports, next, i);
        CollectInLogOrder(reports, next, i);
      }
    }

    /** The recursive step, appending to the reports collected so far. `below` bounds the log position of `id`. */
    method GetReportsRecursively(ghost next: nat, ghost below: nat, id: nat, collected: seq<Report<W, V>>)
      returns (r: Option<seq<Report<W, V>>>)
      requires WellShaped(reports, next)
      requires Find(reports, id).Some? ==> Find(reports, id).value < below
      ensures match Find(reports, id)
              case None => r == None
              case Some(i) => i < |reports| && r == Some(collected + Collect(reports, next, i))
      decreases below
    {
      FindIsFirst(reports, id);
      var i := 0;
      while i < |reports| && reports[i].id != id
        invariant i <= |reports|
        invariant forall j | 0 <= j < i :: reports[j].id != id
      {
        i := i + 1;
      }
      if i == |reports| { return None; }
      var report := reports[i];
      assert ChildrenAreRun(reports, i);
      ghost var from := Start(reports, i);
      var all := collected;
      for c := 0 to |report.children|
        invariant all == collected + CollectRange(reports, next, from, from + c)
      {
        var child := report.children[c];
        ChildFound(reports, next, i, c);
        var more := GetReportsRecursively(next, i, child, all);
        if more.None? { return None; }
        all := more.value;
        AppendAssociates(collected, CollectRange(reports, next, from, from + c), Collect(reports, next, from + c));
      }
      AppendAssociates(collected, CollectRange(reports, next, from, i), [report]);
      return Some(all + [report]);
    }
  }

  /** What a bundle can hold: the memory reporter, or a wrapper around another reporter. */
  datatype Reporter<W(!new), V(!new)> = Memory(m: MemoryReporter<W, V>) | Recent(r: RecentReporter<W, V>)

  ghost function Base<W(!new), V(!new)>(rep: Reporter<W, V>): MemoryReporter<W, V> {
    match rep
    case Memory(m) => m
    case Recent(r) => r.base
  }

  ghost function Footprint<W(!new), V(!new)>(rep: Reporter<W, V>): set<object> {
    match rep
    case Memory(m) => {m}
    case Recent(r) => r.Repr
  }

  ghost predicate ValidReporter<W(!new), V(!new)>(rep: Reporter<W, V>)
    reads Footprint(rep)
    decreases Footprint(rep), 1
  {
    match rep
    case Memory(_) => true
    case Recent(r) => r in r.Repr && r.Valid()
  }

  /** Keeps, besides passing reports on, those added since it was made. */
  class RecentReporter<W(!new), V(!new)> {
    const inner: Reporter<W, V>
    var recentReports: seq<Report<W, V>>
    ghost const base: MemoryReporter<W, V>
    ghost const start: nat
    ghost const Repr: set<object>

    /** The recent reports are the log since `start`, through every layer of wrapping. */
    ghost predicate Valid()
      requires this in Repr
      reads Repr
      decreases Repr, 0
    {
      && Footprint(inner) < Repr && this !in Footprint(inner)
      && base == Base(inner) && base in Repr && ValidReporter(inner)
      && start <= |base.reports|
      && recentReports == base.reports[start..]
    }

    constructor (inner: Reporter<W, V>)
      requires ValidReporter(inner) && Base(inner) in Footprint(inner)
      ensures this in Repr && Valid() && this.inner == inner && fresh(this)
      ensures Repr == {this} + Footprint(inner) && base == Base(inner)
      ensures start == |base.reports| && recentReports == []
    {
      this.inner, this.base, this.recentReports := inner, Base(inner), [];
      this.start, this.Repr := |Base(inner).reports|, {this} + Footprint(inner);
    }

    method AddReport(r: Report<W, V>)
      requires this in Repr && Valid()
      modifies Repr
      ensures Valid() && base.reports == old(base.reports) + [r]
      ensures recentReports == old(recentReports) + [r]
      decreases Repr, 0
    {
      Add(inner, r);
      recentReports := recentReports + [r];
    }
  }

  /** Adding through any stack of reporters appends to the one log, and to the recent reports of every layer. */
  method Add<W(!new), V(!new)>(rep: Reporter<W, V>, r: Report<W, V>)
    requires ValidReporter(rep)
    modifies Footprint(rep)
    ensures ValidReporter(rep) && Base(rep).reports == old(Base(rep).reports) + [r]
    decreases Footprint(rep), 1
  {
    match rep
    case Memory(m) => m.AddReport(r);
    case Recent(recent) => recent.AddReport(r);
  }

  method GetReports<W(!new), V(!new)>(rep: Reporter<W, V>) returns (reports: seq<Report<W, V>>)
    requires ValidReporter(rep)
    ensures reports == Base(rep).reports
    decreases Footprint(rep)
  {
    match rep
    case Memory(m) => reports := m.reports;
    case Recent(r) => reports := GetReports(r.inner);
  }

  method GetExecutionReports<W(!new), V(!new)>(
      rep: Reporter<W, V>, ghost next: nat, id: nat) returns (r: Option<seq<Report<W, V>>>)
    requires ValidReporter(rep) && WellShaped(Base(rep).reports, next)
    ensures match Find(Base(rep).reports, id)
            case None => r == None
            case Some(i) => i < |Base(rep).reports| && r == Some(Collect(Base(rep).reports, next, i))
    decreases Footprint(rep)
  {
    match rep
    case Memory(m) => r := m.GetExecutionReports(next, id);
    case Recent(recent) => r := GetExecutionReports(recent.inner, next, id);
  }
}
