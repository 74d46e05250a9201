/** The canonical form of a JSON value: members sorted by name at every depth. */
module Canonical {
  import opened Text
  import opened Json

  /** Adds a member to a sorted list. A member of the same name is replaced, as in a decoded map. */
  function Put(sorted: seq<Member>, m: Member): seq<Member> {
    if sorted == [] then [m]
    else if m.name == sorted[0].name then [m] + sorted[1..]
    else if Less(m.name, sorted[0].name) then [m] + sorted
    else [sorted[0]] + Put(sorted[1..], m)
  }

  function Canonicalize(j: Value): Value
    decreases j, 1
  {
    match j
    case Array(items) => Array(CanonicalItems(items))
    case Object(members) => Object(CanonicalMembers(members, []))
    case _ => j
  }

  function CanonicalItems(items: seq<Value>): (r: seq<Value>)
    ensures |r| == |items|
    decreases items, 0
  {
    if items == [] then [] else [Canonicalize(items[0])] + CanonicalItems(items[1..])
  }

  /** Decodes members left to right into a sorted map that starts as `done`. */
  function CanonicalMembers(members: seq<Member>, done: seq<Member>): seq<Member>
    decreases members, 0
  {
    if members == [] then done
    else CanonicalMembers(members[1..], Put(done, Member(members[0].name, Canonicalize(members[0].value))))
  }

  predicate Sorted(members: seq<Member>) {
    forall i, j | 0 <= i < j < |members| :: Less(members[i].name, members[j].name)
  }

  ghost predicate IsCanonical(j: Value) {
    match j
    case Array(items) => forall v | v in items :: IsCanonical(v)
    case Object(members) => Sorted(members) && forall m | m in members :: IsCanonical(m.value)
    case _ => true
  }

  ghost predicate UniqueNames(j: Value) {
    match j
    case Array(items) => forall v | v in items :: UniqueNames(v)
    case Object(members) => Distinct(members) && forall m | m in members :: UniqueNames(m.value)
    case _ => true
  }

  predicate Distinct(members: seq<Member>) {
    forall i, j | 0 <= i < j < |members| :: members[i].name != members[j].name
  }

  /** Equality up to the order of object members, at every depth. Number literals count as text. */
  ghost predicate SameUpToOrder(a: Value, b: Value)
    decreases a
  {
    match a
    case Array(items) =>
      b.Array? && |items| == |b.items| && forall i | 0 <= i < |items| :: SameUpToOrder(items[i], b.items[i])
    case Object(members) =>
      && b.Object?
      && (forall m | m in members :: exists n :: n in b.members && n.name == m.name && SameUpToOrder(m.value, n.value))
      && NamesIn(b.members, members)
    case _ => a == b
  }

  ghost predicate NamesIn(b: seq<Member>, a: seq<Member>) {
    forall n {:trigger HasName(a, n.name)} | n in b :: HasName(a, n.name)
  }

  ghost predicate HasName(a: seq<Member>, name: string) {
    exists m :: m in a && m.name == name
  }

  // ----- Sorted lists of members as maps -----

  lemma ConsSorted(first: Member, tail: seq<Member>)
    requires Sorted(tail) && forall x | x in tail :: Less(first.name, x.name)
    ensures Sorted([first] + tail)
  {
    var all := [first] + tail;
    forall i, j | 0 <= i < j < |all| ensures Less(all[i].name, all[j].name) {
      assert all[j] == tail[j - 1] && tail[j - 1] in tail;
    }
  }

  lemma SortedTail(sorted: seq<Member>)
    requires Sorted(sorted) && sorted != []
    ensures Sorted(sorted[1..]) && sorted == [sorted[0]] + sorted[1..]
    ensures forall x | x in sorted[1..] :: Less(sorted[0].name, x.name) && x.name != sorted[0].name
  {
    forall x | x in sorted[1..] ensures Less(sorted[0].name, x.name) && x.name != sorted[0].name {
      var i :| 0 <= i < |sorted[1..]| && sorted[1..][i] == x;
      assert sorted[i + 1] == x;
      LessIrreflexive(x.name);
    }
  }

  lemma {:induction false} PutHas(sorted: seq<Member>, m: Member)
    requires Sorted(sorted)
    ensures forall x :: x in Put(sorted, m) <==> x == m || (x in sorted && x.name != m.name)
  {
    if sorted != [] {
      SortedTail(sorted);
      if m.name == sorted[0].name {
      } else if Less(m.name, sorted[0].name) {
        forall x | x in sorted ensures x.name != m.name {
          if x in sorted[1..] { LessTransitive(m.name, sorted[0].name, x.name); }
          LessIrreflexive(m.name);
        }
      } else {
        PutHas(sorted[1..], m);
      }
    }
  }

  lemma {:induction false} PutIntoSorted(sorted: seq<Member>, m: Member)
    requires Sorted(sorted)
    ensures Sorted(Put(sorted, m))
    ensures forall x :: x in Put(sorted, m) <==> x == m || (x in sorted && x.name != m.name)
  {
    PutHas(sorted, m);
    if sorted != [] {
      var first, tail := sorted[0], sorted[1..];
      SortedTail(sorted);
      LessTotal(m.name, first.name);
      if m.name == first.name {
        ConsSorted(m, tail);
      } else if Less(m.name, first.name) {
        forall x | x in sorted ensures Less(m.name, x.name) {
          if x in tail { LessTransitive(m.name, first.name, x.name); }
        }
        ConsSorted(m, sorted);
      } else {
        PutIntoSorted(tail, m);
        ConsSorted(first, Put(tail, m));
      }
    }
  }

  lemma {:induction false} SortedHaveOneOrder(a: seq<Member>, b: seq<Member>)
    requires Sorted(a) && Sorted(b)
    requires forall x :: x in a <==> x in b
    ensures a == b
  {
    if a != [] || b != [] {
      assert a != [] ==> a[0] in b;
      assert b != [] ==> b[0] in a;
      var i :| 0 <= i < |a| && a[i] == b[0];
      var j :| 0 <= j < |b| && b[j] == a[0];
      if i > 0 && j > 0 { LessAsymmetric(a[0].name, a[i].name); }
      assert a[0] == b[0];
      forall x ensures x in a[1..] <==> x in b[1..] {
        InTail(a, x);
        InTail(b, x);
      }
      SortedHaveOneOrder(a[1..], b[1..]);
    }
  }

  lemma InTail(a: seq<Member>, x: Member)
    requires Sorted(a) && a != []
    ensures x in a[1..] <==> x in a && x != a[0]
  {
    assert a == [a[0]] + a[1..];
    if x in a[1..] {
      var i :| 0 <= i < |a[1..]| && a[1..][i] == x;
      assert a[i + 1] == x;
      LessIrreflexive(a[0].name);
    }
  }

  // ----- Canonicalising -----

  lemma CanonicalItemAt(items: seq<Value>, i: nat)
    requires i < |items|
    ensures CanonicalItems(items)[i] == Canonicalize(items[i])
  {
    if i > 0 { CanonicalItemAt(items[1..], i - 1); }
  }

  /** Canonicalising puts a value in canonical form and keeps it printable. */
  lemma {:induction false} CanonicalizeGivesCanonical(j: Value)
    ensures IsCanonical(Canonicalize(j))
    ensures WellFormed(j) ==> WellFormed(Canonicalize(j))
    decreases j, 1
  {
    match j
    case Array(items) =>
      forall v | v in CanonicalItems(items) ensures IsCanonical(v) && (WellFormed(j) ==> WellFormed(v)) {
        var i :| 0 <= i < |items| && CanonicalItems(items)[i] == v;
        CanonicalItemAt(items, i);
        CanonicalizeGivesCanonical(items[i]);
      }
    case Object(members) => MembersGiveCanonical(members, []);
    case _ =>
  }

  lemma {:induction false} MembersGiveCanonical(members: seq<Member>, done: seq<Member>)
    requires Sorted(done) && forall m | m in done :: IsCanonical(m.value)
    ensures var r := CanonicalMembers(members, done);
            && Sorted(r) && (forall m | m in r :: IsCanonical(m.value))
            && ((forall m | m in members + done :: WellFormed(m.value)) ==> forall m | m in r :: WellFormed(m.value))
    decreases members, 0
  {
    if members != [] {
      var m := Member(members[0].name, Canonicalize(members[0].value));
      CanonicalizeGivesCanonical(members[0].value);
      PutIntoSorted(done, m);
      MembersGiveCanonical(members[1..], Put(done, m));
    }
  }

  function Image(m: Member): Member { Member(m.name, Canonicalize(m.value)) }

  ghost predicate HasImage(members: seq<Member>, x: Member) {
    exists m :: m in members && x == Image(m)
  }

  /** With distinct names, the canonical members are the canonicalised members, sorted. */
  lemma {:induction false} CanonicalMembersAre(members: seq<Member>, done: seq<Member>)
    requires Sorted(done) && Distinct(members)
    requires forall m, d | m in members && d in done :: m.name != d.name
    ensures Sorted(CanonicalMembers(members, done))
    ensures forall x :: x in CanonicalMembers(members, done) <==>
              x in done || HasImage(members, x)
    decreases members, 0
  {
    if members != [] {
      var first, tail := members[0], members[1..];
      assert members == [first] + tail;
      var m := Image(first);
      PutIntoSorted(done, m);
      forall t | t in tail ensures t.name != first.name {
        var i :| 0 <= i < |tail| && tail[i] == t;
        assert members[i + 1] == t;
      }
      CanonicalMembersAre(tail, Put(done, m));
      forall x ensures HasImage(members, x) <==> x == m || HasImage(tail, x) {
        if x == m { assert first in members; }
      }
    }
  }

  /** Of members with one name, wherever they stand, the last is kept. */
  lemma {:induction false} LastOfANameWins(members: seq<Member>, done: seq<Member>, i: nat)
    requires Sorted(done) && i < |members| && forall j | i < j < |members| :: members[j].name != members[i].name
    ensures Image(members[i]) in CanonicalMembers(members, done)
    decreases i
  {
    var m := Image(members[0]);
    PutIntoSorted(done, m);
    if i == 0 {
      UnnamedStays(members[1..], Put(done, m), m);
    } else {
      LastOfANameWins(members[1..], Put(done, m), i - 1);
    }
  }

  lemma {:induction false} UnnamedStays(members: seq<Member>, done: seq<Member>, x: Member)
    requires Sorted(done) && x in done && forall j | 0 <= j < |members| :: members[j].name != x.name
    ensures x in CanonicalMembers(members, done)
  {
    if members != [] {
      PutIntoSorted(done, Image(members[0]));
      UnnamedStays(members[1..], Put(done, Image(members[0])), x);
    }
  }

  /** A canonical value is its own canonical form. */
  lemma {:induction false} CanonicalIsFixed(j: Value)
    requires IsCanonical(j)
    ensures Canonicalize(j) == j
  {
    match j
    case Array(items) =>
      forall i | 0 <= i < |items| ensures CanonicalItems(items)[i] == items[i] {
        CanonicalItemAt(items, i);
        CanonicalIsFixed(items[i]);
      }
      assert CanonicalItems(items) == items;
    case Object(members) =>
      forall i, k | 0 <= i < k < |members| ensures members[i].name != members[k].name {
        LessIrreflexive(members[i].name);
      }
      CanonicalMembersAre(members, []);
      forall m | m in members ensures Image(m) == m {
        CanonicalIsFixed(m.value);
      }
      forall x ensures HasImage(members, x) <==> x in members {
        if x in members { assert Image(x) == x; }
      }
      SortedHaveOneOrder(CanonicalMembers(members, []), members);
    case _ =>
  }

  /** Canonicalising twice equals canonicalising once. */
  lemma CanonicalizeTwice(j: Value)
    ensures Canonicalize(Canonicalize(j)) == Canonicalize(j)
  {
    CanonicalizeGivesCanonical(j);
    CanonicalIsFixed(Canonicalize(j));
  }

  ghost predicate ImagesIn(a: seq<Member>, b: seq<Member>) {
    forall m | m in a :: HasImage(b, Image(m))
  }

  lemma CoveredNamesCoverImages(a: seq<Member>, b: seq<Member>)
    requires Distinct(b) && ImagesIn(a, b) && NamesIn(b, a)
    ensures ImagesIn(b, a)
  {
    forall n | n in b ensures HasImage(a, Image(n)) {
      assert HasName(a, n.name);
      var m :| m in a && m.name == n.name;
      var n' :| n' in b && Image(m) == Image(n');
      assert n' == n;
    }
  }

  lemma SameImagesSameCanonical(a: seq<Member>, b: seq<Member>)
    requires Distinct(a) && Distinct(b)
    ensures CanonicalMembers(a, []) == CanonicalMembers(b, []) <==> ImagesIn(a, b) && ImagesIn(b, a)
  {
    CanonicalMembersAre(a, []);
    CanonicalMembersAre(b, []);
    var ca, cb := CanonicalMembers(a, []), CanonicalMembers(b, []);
    if ImagesIn(a, b) && ImagesIn(b, a) {
      SortedHaveOneOrder(ca, cb);
    }
    if ca == cb {
      forall m | m in a ensures HasImage(b, Image(m)) { assert Image(m) in ca; }
      forall n | n in b ensures HasImage(a, Image(n)) { assert Image(n) in cb; }
    }
  }

  lemma PartnerOf(a: Value, b: Value, m: Member) returns (n: Member)
    requires a.Object? && SameUpToOrder(a, b) && m in a.members
    ensures b.Object? && n in b.members && n.name == m.name && SameUpToOrder(m.value, n.value)
  {
    n :| n in b.members && n.name == m.name && SameUpToOrder(m.value, n.value);
  }

  lemma {:induction false} SameThenOneCanonical(a: Value, b: Value)
    requires UniqueNames(a) && UniqueNames(b) && SameUpToOrder(a, b)
    ensures Canonicalize(a) == Canonicalize(b)
    decreases a
  {
    match a
    case Array(items) =>
      forall i | 0 <= i < |items| ensures CanonicalItems(items)[i] == CanonicalItems(b.items)[i] {
        CanonicalItemAt(items, i);
        CanonicalItemAt(b.items, i);
        SameThenOneCanonical(items[i], b.items[i]);
      }
      assert CanonicalItems(items) == CanonicalItems(b.items);
    case Object(members) =>
      forall m | m in members ensures HasImage(b.members, Image(m)) {
        var n := PartnerOf(a, b, m);
        SameThenOneCanonical(m.value, n.value);
        assert Image(n) == Image(m);
      }
      CoveredNamesCoverImages(members, b.members);
      SameImagesSameCanonical(members, b.members);
    case _ =>
  }

  lemma {:induction false} OneCanonicalThenSame(a: Value, b: Value)
    requires UniqueNames(a) && UniqueNames(b) && Canonicalize(a) == Canonicalize(b)
    ensures SameUpToOrder(a, b)
    decreases a
  {
    match a
    case Array(items) =>
      forall i | 0 <= i < |items| ensures SameUpToOrder(items[i], b.items[i]) {
        CanonicalItemAt(items, i);
        CanonicalItemAt(b.items, i);
        OneCanonicalThenSame(items[i], b.items[i]);
      }
    case Object(members) =>
      SameImagesSameCanonical(members, b.members);
      forall m | m in members
        ensures exists n :: n in b.members && n.name == m.name && SameUpToOrder(m.value, n.value)
      {
        assert HasImage(b.members, Image(m));
        var n :| n in b.members && Image(m) == Image(n);
        OneCanonicalThenSame(m.value, n.value);
      }
      forall n | n in b.members ensures HasName(members, n.name) {
        assert HasImage(members, Image(n));
        var m :| m in members && Image(n) == Image(m);
      }
    case _ =>
  }

  /** Two values with unique member names have one canonical form exactly when they are equal up to member order. */
  lemma CanonicalizeIsExact(a: Value, b: Value)
    requires UniqueNames(a) && UniqueNames(b)
    ensures Canonicalize(a) == Canonicalize(b) <==> SameUpToOrder(a, b)
  {
    if SameUpToOrder(a, b) { SameThenOneCanonical(a, b); }
    if Canonicalize(a) == Canonicalize(b) { OneCanonicalThenSame(a, b); }
  }

  /** Member names go up, by their first difference, at every depth. */
  ghost predicate NamesAscend(j: Value) {
    match j
    case Array(items) => forall v | v in items :: NamesAscend(v)
    case Object(members) =>
      && (forall i, k | 0 <= i < k < |members| :: Ascends(members[i].name, members[k].name))
      && forall m | m in members :: NamesAscend(m.value)
    case _ => true
  }

  lemma {:induction false} CanonicalAscends(j: Value)
    requires IsCanonical(j)
    ensures NamesAscend(j) && UniqueNames(j)
  {
    match j
    case Array(items) =>
      forall v | v in items ensures NamesAscend(v) && UniqueNames(v) { CanonicalAscends(v); }
    case Object(members) =>
      forall i, k | 0 <= i < k < |members|
        ensures Ascends(members[i].name, members[k].name) && members[i].name != members[k].name
      {
        LessIsAscends(members[i].name, members[k].name);
        LessIrreflexive(members[i].name);
      }
      forall m | m in members ensures NamesAscend(m.value) && UniqueNames(m.value) { CanonicalAscends(m.value); }
    case _ =>
  }

  /** The canonical form of a value is that value up to member order, with names going up at every depth. */
  lemma CanonicalizeKeepsMeaning(j: Value)
    requires UniqueNames(j)
    ensures SameUpToOrder(j, Canonicalize(j)) && NamesAscend(Canonicalize(j))
  {
    CanonicalizeGivesCanonical(j);
    CanonicalAscends(Canonicalize(j));
    CanonicalizeTwice(j);
    CanonicalizeIsExact(j, Canonicalize(j));
  }
}
