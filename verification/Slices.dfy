/** Removal from a slice over a fixed backing array. */
module Slices {
  import opened Stores

  lemma {:induction false} RemoveFirstAt<T>(s: seq<T>, x: T, i: nat)
    requires i < |s| && s[i] == x && forall j | 0 <= j < i :: s[j] != x
    ensures RemoveFirst(s, x) == s[..i] + s[i + 1..]
  {
    if i > 0 {
      RemoveFirstAt(s[1..], x, i - 1);
      assert s[..i] == [s[0]] + s[1..][..i - 1];
    }
  }

  lemma {:induction false} RemoveFirstAbsent<T>(s: seq<T>, x: T)
    requires x !in s
    ensures RemoveFirst(s, x) == s
  {
    if s != [] {
      RemoveFirstAbsent(s[1..], x);
      assert s == [s[0]] + s[1..];
    }
  }

  /** The first cell with an item among the first `n`, or `n`. */
  method IndexInCells<T(==)>(cells: array<T>, n: nat, item: T) returns (idx: nat)
    requires n <= cells.Length
    ensures idx <= n && (forall j | 0 <= j < idx :: cells[j] != item) && (idx < n ==> cells[idx] == item)
  {
    idx := 0;
    while idx < n && cells[idx] != item
      invariant idx <= n && forall j | 0 <= j < idx :: cells[j] != item
    {
      idx := idx + 1;
    }
  }

  /** Shifts the cells after `idx` down by one within the first `n`, and clears the last of them. */
  method DeleteAt<T>(cells: array<T>, n: nat, idx: nat, zero: T)
    requires idx < n <= cells.Length
    modifies cells
    ensures var was := old(cells[..n]); cells[..n - 1] == was[..idx] + was[idx + 1..]
    ensures cells[n - 1] == zero
    ensures forall x | n <= x < cells.Length :: cells[x] == old(cells[x])
  {
    for j := idx to n - 1
      invariant forall x | 0 <= x < idx :: cells[x] == old(cells[x])
      invariant forall x | idx <= x < j :: cells[x] == old(cells[x + 1])
      invariant forall x | j <= x < cells.Length :: cells[x] == old(cells[x])
    {
      cells[j] := cells[j + 1];
    }
    cells[n - 1] := zero;
  }

  /**
    Deletes the first occurrence of `item` from the slice made of the first `n` cells,
    shifting the cells after it in place, and returns the new length.  The cell given up
    at the end is cleared.
  */
  method DeleteFromSlice<T(==)>(cells: array<T>, n: nat, item: T, zero: T) returns (m: nat)
    requires n <= cells.Length
    modifies cells
    ensures m <= n && cells[..m] == RemoveFirst(old(cells[..n]), item)
    ensures forall j | m <= j < n :: cells[j] == zero
    ensures forall x | n <= x < cells.Length :: cells[x] == old(cells[x])
  {
    ghost var was := cells[..n];
    var idx := IndexInCells(cells, n, item);
    if idx == n {
      RemoveFirstAbsent(was, item);
      return n;
    }
    DeleteAt(cells, n, idx, zero);
    RemoveFirstAt(was, item, idx);
    return n - 1;
  }
}
