/**
 * Table rows as sequences in insertion (primary-key) order, and the query
 * shapes the application builds from them: `WHERE` (a filter), `ORDER BY key
 * DESC` (a sort), `query.get(id)` (a lookup by key), and the id SQLite gives a
 * new row (one more than the largest id in the table).
 */
module Rows {
  import opened Wrappers

  /** Every element satisfying `p` keeps its multiplicity, the others are gone. */
  ghost predicate Selects<T(!new)>(r: seq<T>, xs: seq<T>, p: T -> bool)
  {
    forall x :: multiset(r)[x] == if p(x) then multiset(xs)[x] else 0
  }

  /** `WHERE p`: the rows satisfying `p`, in table order. */
  function Filter<T(!new)>(xs: seq<T>, p: T -> bool): (r: seq<T>)
    ensures Selects(r, xs, p)
    ensures |r| <= |xs|
  {
    if xs == [] then []
    else
      var rest := Filter(xs[1..], p);
      assert xs == [xs[0]] + xs[1..];
      assert multiset(xs) == multiset{xs[0]} + multiset(xs[1..]);
      if p(xs[0]) then [xs[0]] + rest else rest
  }

  /** Filtering with two predicates that agree everywhere gives the same rows. */
  lemma {:induction false} FilterCongruent<T(!new)>(xs: seq<T>, p: T -> bool, q: T -> bool)
    requires forall x :: p(x) == q(x)
    ensures Filter(xs, p) == Filter(xs, q)
  {
    if xs != [] {
      FilterCongruent(xs[1..], p, q);
    }
  }

  /** A filter every row passes returns the whole table. */
  lemma {:induction false} FilterAll<T(!new)>(xs: seq<T>, p: T -> bool)
    requires forall k :: 0 <= k < |xs| ==> p(xs[k])
    ensures Filter(xs, p) == xs
  {
    if xs != [] {
      assert forall k :: 0 <= k < |xs[1..]| ==> xs[1..][k] == xs[k + 1];
      FilterAll(xs[1..], p);
    }
  }

  /** The keys of `xs`, read left to right, never increase. */
  ghost predicate SortedDesc<T>(xs: seq<T>, key: T -> int)
  {
    forall i, j :: 0 <= i < j < |xs| ==> key(xs[i]) >= key(xs[j])
  }

  /** The keys of `xs`, read left to right, strictly increase (a primary key in table order). */
  ghost predicate StrictlyAscending<T>(xs: seq<T>, key: T -> int)
  {
    forall i, j :: 0 <= i < j < |xs| ==> key(xs[i]) < key(xs[j])
  }

  /** The first elements of two ascending lists with the same elements agree. */
  lemma AscendingHeads<T(!new)>(a: seq<T>, b: seq<T>, key: T -> int)
    requires StrictlyAscending(a, key) && StrictlyAscending(b, key)
    requires multiset(a) == multiset(b) && a != []
    ensures b != [] && a[0] == b[0]
  {
    assert a[0] in multiset(b);
    assert b[0] in multiset(a);
  }

  /** Two lists with the same elements and the same first element have the same elements after it. */
  lemma TailMultiset<T>(a: seq<T>, b: seq<T>)
    requires a != [] && b != [] && a[0] == b[0] && multiset(a) == multiset(b)
    ensures multiset(a[1..]) == multiset(b[1..])
  {
    assert a == [a[0]] + a[1..];
    assert b == [b[0]] + b[1..];
    assert multiset(a[1..]) == multiset(a) - multiset{a[0]};
    assert multiset(b[1..]) == multiset(b) - multiset{a[0]};
  }

  /** A strictly ascending order of a collection is unique. */
  lemma {:induction false} AscendingByMultiset<T(!new)>(a: seq<T>, b: seq<T>, key: T -> int)
    requires StrictlyAscending(a, key) && StrictlyAscending(b, key)
    requires multiset(a) == multiset(b)
    ensures a == b
    decreases |a|
  {
    if a == [] {
      assert |multiset(b)| == 0;
    } else {
      AscendingHeads(a, b, key);
      TailMultiset(a, b);
      AscendingByMultiset(a[1..], b[1..], key);
      assert a == [a[0]] + a[1..] && b == [b[0]] + b[1..];
    }
  }

  /** Puts `x` into a list sorted by descending key, after the elements with an equal key. */
  function InsertDesc<T>(x: T, xs: seq<T>, key: T -> int): (r: seq<T>)
    requires SortedDesc(xs, key)
    ensures SortedDesc(r, key)
    ensures multiset(r) == multiset(xs) + multiset{x}
    ensures |r| == |xs| + 1 && (r[0] == x || (xs != [] && r[0] == xs[0]))
  {
    if xs == [] || key(x) > key(xs[0]) then [x] + xs
    else
      var rest := InsertDesc(x, xs[1..], key);
      assert xs == [xs[0]] + xs[1..];
      assert key(xs[0]) >= key(rest[0]);
      [xs[0]] + rest
  }

  /** `ORDER BY key DESC` as an insertion sort: rows with equal keys come out in reverse table order (the database leaves their order unspecified). */
  function SortDesc<T>(xs: seq<T>, key: T -> int): (r: seq<T>)
    ensures SortedDesc(r, key)
    ensures multiset(r) == multiset(xs)
  {
    if xs == [] then []
    else
      assert xs == [xs[0]] + xs[1..];
      InsertDesc(xs[0], SortDesc(xs[1..], key), key)
  }

  /** `WHERE p ORDER BY key DESC`. */
  function SelectDesc<T(!new)>(xs: seq<T>, p: T -> bool, key: T -> int): (r: seq<T>)
    ensures SortedDesc(r, key)
    ensures Selects(r, xs, p)
  {
    SortDesc(Filter(xs, p), key)
  }

  /** Every selected element comes from `xs` and satisfies `p`. */
  lemma SelectedMembers<T(!new)>(r: seq<T>, xs: seq<T>, p: T -> bool)
    requires Selects(r, xs, p)
    ensures forall x :: x in r ==> x in xs && p(x)
  {
    forall x | x in r
      ensures x in xs && p(x)
    {
      assert multiset(r)[x] > 0;
    }
  }

  /** One step of `Filter`: the first row is kept exactly when it passes. */
  lemma FilterCons<T(!new)>(xs: seq<T>, p: T -> bool)
    requires xs != []
    ensures Filter(xs, p) == if p(xs[0]) then [xs[0]] + Filter(xs[1..], p) else Filter(xs[1..], p)
  {
  }

  /** A bound every row's key exceeds also bounds the keys of a filter of the rows. */
  lemma {:induction false} FilterAbove<T(!new)>(xs: seq<T>, p: T -> bool, key: T -> int, b: int)
    requires forall k :: 0 <= k < |xs| ==> b < key(xs[k])
    ensures forall k :: 0 <= k < |Filter(xs, p)| ==> b < key(Filter(xs, p)[k])
  {
    if xs != [] {
      FilterAbove(xs[1..], p, key, b);
      FilterCons(xs, p);
    }
  }

  /** Filtering keeps a strictly ascending key strictly ascending (`ORDER BY id ASC` of a filter). */
  lemma {:induction false} FilterKeepsAscending<T(!new)>(xs: seq<T>, p: T -> bool, key: T -> int)
    requires StrictlyAscending(xs, key)
    ensures StrictlyAscending(Filter(xs, p), key)
  {
    if xs != [] {
      var rest := Filter(xs[1..], p);
      FilterKeepsAscending(xs[1..], p, key);
      FilterCons(xs, p);
      if p(xs[0]) {
        FilterAbove(xs[1..], p, key, key(xs[0]));
        ConsAscending(xs[0], rest, key);
      }
    }
  }

  /** A row whose key is below every key of an ascending list can go in front of it. */
  lemma ConsAscending<T>(h: T, rest: seq<T>, key: T -> int)
    requires StrictlyAscending(rest, key)
    requires forall k :: 0 <= k < |rest| ==> key(h) < key(rest[k])
    ensures StrictlyAscending([h] + rest, key)
  {
    var r := [h] + rest;
    forall i, j | 0 <= i < j < |r| ensures key(r[i]) < key(r[j]) {
      assert r[j] == rest[j - 1];
      if i > 0 {
        assert r[i] == rest[i - 1];
      }
    }
  }

  /** Index of the first row whose key is `k`, as `query.get(k)` finds it. */
  function IndexOf<T>(xs: seq<T>, key: T -> int, k: int): (r: Option<nat>)
    ensures r.Some? ==> r.value < |xs| && key(xs[r.value]) == k
    ensures r.Some? ==> forall j :: 0 <= j < r.value ==> key(xs[j]) != k
    ensures r.None? <==> forall j :: 0 <= j < |xs| ==> key(xs[j]) != k
  {
    if xs == [] then None
    else if key(xs[0]) == k then Some(0)
    else
      var r := IndexOf(xs[1..], key, k);
      if r.Some? then
        assert xs[r.value + 1] == xs[1..][r.value];
        Some(r.value + 1)
      else None
  }

  /** With a strictly ascending key the row found is the only one with that key. */
  lemma IndexOfUnique<T>(xs: seq<T>, key: T -> int, k: int, j: int)
    requires StrictlyAscending(xs, key)
    requires 0 <= j < |xs| && key(xs[j]) == k
    ensures IndexOf(xs, key, k) == Some(j)
  {
  }

  /** The id SQLite gives a new row: one more than the largest key in the table, 1 for an empty table (ids here are positive). */
  function NextId<T>(xs: seq<T>, key: T -> int): (r: int)
    ensures r >= 1
    ensures forall j :: 0 <= j < |xs| ==> key(xs[j]) < r
  {
    if xs == [] then 1
    else
      var m := NextId(xs[..|xs| - 1], key);
      var last := key(xs[|xs| - 1]);
      assert forall j :: 0 <= j < |xs| - 1 ==> xs[j] == xs[..|xs| - 1][j];
      if last >= m then last + 1 else m
  }

  /** Appending a row with the next id keeps the key strictly ascending. */
  lemma AppendNextAscending<T>(xs: seq<T>, key: T -> int, x: T)
    requires StrictlyAscending(xs, key)
    requires key(x) == NextId(xs, key)
    ensures StrictlyAscending(xs + [x], key)
  {
  }
}
