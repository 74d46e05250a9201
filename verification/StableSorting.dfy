/** Stable sorting in place, for any strict weak order. */
module StableSorting {

  ghost predicate StrictWeakOrder<T(!new)>(before: (T, T) -> bool) {
    && (forall a, b {:trigger before(a, b)} :: before(a, b) ==> !before(b, a))
    && (forall a, b, c {:trigger before(c, a), before(b, a)} :: before(c, a) ==> before(b, a) || before(c, b))
  }

  ghost predicate Sorted<T>(before: (T, T) -> bool, s: seq<T>) {
    forall i, j | 0 <= i < j < |s| :: !before(s[j], s[i])
  }

  /** Puts an element after everything that need not come after it. */
  function InsertLast<T>(before: (T, T) -> bool, sorted: seq<T>, x: T): seq<T> {
    if sorted != [] && before(x, sorted[|sorted| - 1])
    then InsertLast(before, sorted[..|sorted| - 1], x) + [sorted[|sorted| - 1]]
    else sorted + [x]
  }

  /** The stable sort of a list. */
  function StableSort<T>(before: (T, T) -> bool, s: seq<T>): seq<T> {
    if s == [] then [] else InsertLast(before, StableSort(before, s[..|s| - 1]), s[|s| - 1])
  }

  lemma {:induction false} InsertLastSorts<T(!new)>(before: (T, T) -> bool, sorted: seq<T>, x: T)
    requires StrictWeakOrder(before) && Sorted(before, sorted)
    ensures Sorted(before, InsertLast(before, sorted, x))
    ensures multiset(InsertLast(before, sorted, x)) == multiset(sorted) + multiset{x}
  {
    if sorted != [] {
      var n := |sorted| - 1;
      var init, last := sorted[..n], sorted[n];
      assert sorted == init + [last];
      if before(x, last) {
        InsertLastSorts(before, init, x);
        var after := InsertLast(before, init, x);
        forall y | y in after ensures !before(last, y) {
          assert y in multiset(after);
          assert y == x || y in init;
        }
      } else {
        forall y | y in init ensures !before(x, y) {
          assert !before(last, y);
        }
      }
    }
  }

  lemma MultisetOfLast<T>(s: seq<T>)
    requires s != []
    ensures multiset(s) == multiset(s[..|s| - 1]) + multiset{s[|s| - 1]}
  {
    assert s == s[..|s| - 1] + [s[|s| - 1]];
  }

  lemma {:induction false} StableSortPermutes<T(!new)>(before: (T, T) -> bool, s: seq<T>)
    requires StrictWeakOrder(before)
    ensures Sorted(before, StableSort(before, s))
    ensures multiset(StableSort(before, s)) == multiset(s)
  {
    if s != [] {
      var init := s[..|s| - 1];
      var done := StableSort(before, init);
      StableSortPermutes(before, init);
      InsertLastSorts(before, done, s[|s| - 1]);
      MultisetOfLast(s);
    }
  }

  lemma InsertPasses<T>(before: (T, T) -> bool, sorted: seq<T>, j: nat, x: T)
    requires 0 < j <= |sorted| && before(x, sorted[j - 1])
    ensures InsertLast(before, sorted[..j], x) + sorted[j..] == InsertLast(before, sorted[..j - 1], x) + sorted[j - 1..]
  {
    assert sorted[..j][..j - 1] == sorted[..j - 1] && sorted[j - 1..] == [sorted[j - 1]] + sorted[j..];
  }

  lemma InsertStops<T>(before: (T, T) -> bool, sorted: seq<T>, j: nat, x: T)
    requires j <= |sorted| && (j > 0 ==> !before(x, sorted[j - 1]))
    ensures InsertLast(before, sorted[..j], x) == sorted[..j] + [x]
  {
  }

  /** Moves the element at `i` down past the sorted elements that come after it. */
  method InsertInPlace<T>(before: (T, T) -> bool, items: array<T>, i: nat)
    requires i < items.Length
    modifies items
    ensures items[..i + 1] == InsertLast(before, old(items[..i]), old(items[i]))
    ensures forall k | i < k < items.Length :: items[k] == old(items[k])
  {
    ghost var sorted, x := items[..i], items[i];
    var j := i;
    assert sorted[..i] == sorted && sorted[i..] == [];
    while j > 0 && before(items[j], items[j - 1])
      invariant j <= i && items[j] == x
      invariant forall k | 0 <= k < j :: items[k] == sorted[k]
      invariant forall k | j < k <= i :: items[k] == sorted[k - 1]
      invariant forall k | i < k < items.Length :: items[k] == old(items[k])
      invariant InsertLast(before, sorted, x) == InsertLast(before, sorted[..j], x) + sorted[j..]
    {
      InsertPasses(before, sorted, j, x);
      items[j], items[j - 1] := items[j - 1], items[j];
      j := j - 1;
    }
    InsertStops(before, sorted, j, x);
    assert items[..i + 1] == sorted[..j] + [x] + sorted[j..];
  }

  method SortInPlace<T>(before: (T, T) -> bool, items: array<T>)
    modifies items
    ensures items[..] == StableSort(before, old(items[..]))
  {
    ghost var was := items[..];
    for i := 0 to items.Length
      invariant items[..i] == StableSort(before, was[..i])
      invariant forall k | i <= k < items.Length :: items[k] == was[k]
    {
      assert was[..i + 1][..i] == was[..i];
      InsertInPlace(before, items, i);
    }
    assert was[..items.Length] == was && items[..items.Length] == items[..];
  }

  // ----- Stability -----

  predicate Tie<T>(before: (T, T) -> bool, a: T, b: T) {
    !before(a, b) && !before(b, a)
  }

  /** The elements tied with `x`, in their order. */
  function TiedWith<T>(before: (T, T) -> bool, x: T, s: seq<T>): seq<T> {
    if s == [] then []
    else TiedWith(before, x, s[..|s| - 1]) + (if Tie(before, x, s[|s| - 1]) then [s[|s| - 1]] else [])
  }

  lemma TiedWithAppend<T>(before: (T, T) -> bool, x: T, s: seq<T>, y: T)
    ensures TiedWith(before, x, s + [y]) == TiedWith(before, x, s) + (if Tie(before, x, y) then [y] else [])
  {
    assert (s + [y])[..|s|] == s;
  }

  lemma TiesAreNotPassed<T(!new)>(before: (T, T) -> bool, y: T, last: T, x: T)
    requires StrictWeakOrder(before) && before(y, last)
    ensures !Tie(before, x, y) || !Tie(before, x, last)
  {
    assert before(x, last) || before(y, x);
  }

  /** An element only passes elements it does not tie with. */
  lemma {:induction false} InsertLastIsStable<T(!new)>(before: (T, T) -> bool, sorted: seq<T>, y: T, x: T)
    requires StrictWeakOrder(before)
    ensures TiedWith(before, x, InsertLast(before, sorted, y))
         == TiedWith(before, x, sorted) + (if Tie(before, x, y) then [y] else [])
  {
    if sorted != [] && before(y, sorted[|sorted| - 1]) {
      var init, last := sorted[..|sorted| - 1], sorted[|sorted| - 1];
      InsertLastIsStable(before, init, y, x);
      TiedWithAppend(before, x, InsertLast(before, init, y), last);
      TiesAreNotPassed(before, y, last, x);
    } else {
      TiedWithAppend(before, x, sorted, y);
    }
  }

  /** The sort is stable: elements that tie keep the order they came in, in lists of any length. */
  lemma {:induction false} StableSortIsStable<T(!new)>(before: (T, T) -> bool, s: seq<T>, x: T)
    requires StrictWeakOrder(before)
    ensures TiedWith(before, x, StableSort(before, s)) == TiedWith(before, x, s)
  {
    if s != [] {
      StableSortIsStable(before, s[..|s| - 1], x);
      InsertLastIsStable(before, StableSort(before, s[..|s| - 1]), s[|s| - 1], x);
    }
  }

  // ----- One order for every permutation -----

  ghost predicate NoTies<T>(before: (T, T) -> bool, s: seq<T>) {
    forall x, y | x in s && y in s && Tie(before, x, y) :: x == y
  }

  lemma LastsAgree<T(!new)>(before: (T, T) -> bool, a: seq<T>, b: seq<T>)
    requires StrictWeakOrder(before) && Sorted(before, a) && Sorted(before, b) && NoTies(before, a)
    requires multiset(a) == multiset(b) && a != [] && b != []
    ensures a[|a| - 1] == b[|b| - 1]
  {
    var x, y := a[|a| - 1], b[|b| - 1];
    assert x in multiset(b) && y in multiset(a);
    assert x in b && y in a && x in a;
  }

  lemma SameMultisetsLessLast<T>(a: seq<T>, b: seq<T>)
    requires multiset(a) == multiset(b) && a != [] && b != [] && a[|a| - 1] == b[|b| - 1]
    ensures multiset(a[..|a| - 1]) == multiset(b[..|b| - 1])
  {
    MultisetOfLast(a);
    MultisetOfLast(b);
    var x := multiset{a[|a| - 1]};
    assert multiset(a[..|a| - 1]) == multiset(a) - x && multiset(b[..|b| - 1]) == multiset(b) - x;
  }

  lemma SortedPrefix<T>(before: (T, T) -> bool, s: seq<T>)
    requires s != []
    ensures Sorted(before, s) ==> Sorted(before, s[..|s| - 1])
    ensures NoTies(before, s) ==> NoTies(before, s[..|s| - 1])
  {
  }

  /** Where nothing ties, a list has one sorted order. */
  lemma {:induction false} SortedHaveOneOrder<T(!new)>(before: (T, T) -> bool, a: seq<T>, b: seq<T>)
    requires StrictWeakOrder(before) && Sorted(before, a) && Sorted(before, b) && NoTies(before, a)
    requires multiset(a) == multiset(b)
    ensures a == b
  {
    assert |a| == |multiset(a)| == |multiset(b)| == |b|;
    if a != [] {
      LastsAgree(before, a, b);
      SameMultisetsLessLast(a, b);
      SortedPrefix(before, a);
      SortedPrefix(before, b);
      SortedHaveOneOrder(before, a[..|a| - 1], b[..|b| - 1]);
      assert a == a[..|a| - 1] + [a[|a| - 1]] && b == b[..|b| - 1] + [b[|b| - 1]];
    }
  }

  /** Sorting without ties gives one list for all permutations. */
  lemma SortIsCanonical<T(!new)>(before: (T, T) -> bool, p: seq<T>, q: seq<T>)
    requires StrictWeakOrder(before) && multiset(p) == multiset(q) && NoTies(before, p)
    ensures StableSort(before, p) == StableSort(before, q)
  {
    StableSortPermutes(before, p);
    StableSortPermutes(before, q);
    var s := StableSort(before, p);
    forall x | x in s ensures x in p { assert x in multiset(s); }
    SortedHaveOneOrder(before, s, StableSort(before, q));
  }

  // ----- Ties give more than one order -----

  /** Every permutation of `p` sorts to the same list. */
  ghost predicate SortsToOneList<T(!new)>(before: (T, T) -> bool, p: seq<T>) {
    forall q: seq<T> {:trigger StableSort(before, q)} ::
      multiset(q) == multiset(p) ==> StableSort(before, q) == StableSort(before, p)
  }

  lemma {:induction false} FirstTied<T(!new)>(before: (T, T) -> bool, x: T, s: seq<T>)
    requires s != [] && Tie(before, x, s[0])
    ensures TiedWith(before, x, s) != [] && TiedWith(before, x, s)[0] == s[0]
  {
    if |s| > 1 {
      FirstTied(before, x, s[..|s| - 1]);
    } else {
      assert s[..0] == [] && s == [s[0]];
    }
  }

  /** Two lists that start with different elements, both tied with `x`, sort differently. */
  lemma DifferentFirstsSortDifferently<T(!new)>(before: (T, T) -> bool, x: T, p: seq<T>, q: seq<T>)
    requires StrictWeakOrder(before) && p != [] && q != [] && p[0] != q[0]
    requires Tie(before, x, p[0]) && Tie(before, x, q[0])
    ensures StableSort(before, p) != StableSort(before, q)
  {
    FirstTied(before, x, p);
    FirstTied(before, x, q);
    StableSortIsStable(before, p, x);
    StableSortIsStable(before, q, x);
  }

  /** A list that starts with a given element of another, and permutes it. */
  lemma MoveToFront<T>(p: seq<T>, x: T) returns (q: seq<T>)
    requires x in p
    ensures multiset(q) == multiset(p) && q != [] && q[0] == x
  {
    var i :| 0 <= i < |p| && p[i] == x;
    q := [x] + p[..i] + p[i + 1..];
    assert p == p[..i] + [x] + p[i + 1..];
  }

  /** All permutations sort alike exactly when nothing ties. */
  lemma SortsToOneListIff<T(!new)>(before: (T, T) -> bool, p: seq<T>)
    requires StrictWeakOrder(before)
    ensures SortsToOneList(before, p) <==> NoTies(before, p)
  {
    if NoTies(before, p) {
      forall q: seq<T> | multiset(q) == multiset(p) ensures StableSort(before, q) == StableSort(before, p) {
        SortIsCanonical(before, p, q);
      }
    } else {
      var x, y :| x in p && y in p && Tie(before, x, y) && x != y;
      var q := MoveToFront(p, x);
      var r := MoveToFront(p, y);
      assert Tie(before, x, x);
      DifferentFirstsSortDifferently(before, x, q, r);
    }
  }
}
