/**
 * The query-builder operations over a table held as a sequence in id order:
 * `->first()`, `->where(...)->get()`, the row positions a query returns, and
 * `orderBy` as a stable insertion sort.
 */
module Seqs {
  import opened Wrappers

  /** Index of the first row satisfying `p` (`->where(p)->first()` in row order). */
  function FirstIndex<T>(xs: seq<T>, p: T -> bool): (r: Option<nat>)
    ensures r.Some? ==> r.value < |xs| && p(xs[r.value])
    ensures r.Some? ==> forall j :: 0 <= j < r.value ==> !p(xs[j])
    ensures r.None? ==> forall j :: 0 <= j < |xs| ==> !p(xs[j])
  {
    if |xs| == 0 then None
    else if p(xs[0]) then Some(0)
    else
      match FirstIndex(xs[1..], p)
      case None => None
      case Some(k) => Some(k + 1)
  }

  /** The first row satisfying `p`, if any. */
  function First<T>(xs: seq<T>, p: T -> bool): (r: Option<T>)
    ensures r.Some? <==> exists k :: 0 <= k < |xs| && p(xs[k])
    ensures r.Some? ==> r.value in xs && p(r.value)
    ensures r.Some? ==> exists k :: 0 <= k < |xs| && xs[k] == r.value && p(xs[k]) &&
                          forall j :: 0 <= j < k ==> !p(xs[j])
  {
    match FirstIndex(xs, p)
    case None => None
    case Some(k) => Some(xs[k])
  }

  /** The answer given at the `k`-th prompt; the prompt's default when none was given. */
  function Answer<A>(answers: seq<A>, k: nat, default: A): (r: A)
    ensures k < |answers| ==> r == answers[k]
    ensures k >= |answers| ==> r == default
  {
    if k < |answers| then answers[k] else default
  }

  /** `pluck(column)`: one value per row, in row order. */
  function Pluck<T, U>(xs: seq<T>, column: T -> U): (r: seq<U>)
    ensures |r| == |xs|
    ensures forall i :: 0 <= i < |xs| ==> r[i] == column(xs[i])
  {
    seq(|xs|, i requires 0 <= i < |xs| => column(xs[i]))
  }

  /** The rows satisfying `p`, in their original order (`->where(p)->get()`). */
  function Filter<T(==,!new)>(xs: seq<T>, p: T -> bool): (r: seq<T>)
    ensures forall x :: multiset(r)[x] == if p(x) then multiset(xs)[x] else 0
    ensures forall x :: x in r <==> x in xs && p(x)
    decreases |xs|
  {
    if |xs| == 0 then []
    else
      assert xs == [xs[0]] + xs[1..];
      (if p(xs[0]) then [xs[0]] else []) + Filter(xs[1..], p)
  }

  /** The positions of the rows satisfying `p`, ascending: the rows a query visits. */
  function Positions<T>(xs: seq<T>, p: T -> bool): (r: seq<nat>)
    ensures forall k: nat :: k in r <==> k < |xs| && p(xs[k])
    ensures forall i, j :: 0 <= i < j < |r| ==> r[i] < r[j]
    ensures forall i :: 0 <= i < |r| ==> r[i] < |xs|
    decreases |xs|
  {
    if |xs| == 0 then []
    else
      var n := |xs| - 1;
      assert forall k :: 0 <= k < n ==> xs[..n][k] == xs[k];
      var before := Positions(xs[..n], p);
      assert forall i :: 0 <= i < |before| ==> before[i] < n by {
        forall i | 0 <= i < |before| ensures before[i] < n {
          assert before[i] in before;
        }
      }
      before + (if p(xs[n]) then [n] else [])
  }

  /** `xs` is ordered by `key`, smallest first. */
  predicate SortedBy<T>(xs: seq<T>, key: T -> int) {
    forall i, j :: 0 <= i < j < |xs| ==> key(xs[i]) <= key(xs[j])
  }

  /** Inserts `x` into `xs` after every element whose key is not larger than `x`'s. */
  function InsertBy<T>(x: T, xs: seq<T>, key: T -> int): seq<T>
    decreases |xs|
  {
    if |xs| == 0 || key(x) < key(xs[0]) then [x] + xs
    else [xs[0]] + InsertBy(x, xs[1..], key)
  }

  /** Insertion adds exactly `x`. */
  lemma {:induction false} InsertByContents<T>(x: T, xs: seq<T>, key: T -> int)
    ensures |InsertBy(x, xs, key)| == |xs| + 1
    ensures multiset(InsertBy(x, xs, key)) == multiset(xs) + multiset{x}
    ensures forall k :: 0 <= k < |InsertBy(x, xs, key)| ==>
              InsertBy(x, xs, key)[k] == x || InsertBy(x, xs, key)[k] in xs
    decreases |xs|
  {
    if |xs| > 0 && key(x) >= key(xs[0]) {
      InsertByContents(x, xs[1..], key);
      assert xs == [xs[0]] + xs[1..];
    }
  }

  /** Inserting into a sorted sequence keeps it sorted. */
  lemma {:induction false} InsertBySorted<T>(x: T, xs: seq<T>, key: T -> int)
    requires SortedBy(xs, key)
    ensures SortedBy(InsertBy(x, xs, key), key)
    decreases |xs|
  {
    if |xs| > 0 && key(x) >= key(xs[0]) {
      var rest := InsertBy(x, xs[1..], key);
      InsertBySorted(x, xs[1..], key);
      InsertByContents(x, xs[1..], key);
      var r := [xs[0]] + rest;
      forall k | 0 <= k < |rest| ensures key(xs[0]) <= key(rest[k]) {
        if rest[k] != x {
          var m :| 0 <= m < |xs[1..]| && xs[1..][m] == rest[k];
          assert xs[m + 1] == rest[k];
        }
      }
      forall i, j | 0 <= i < j < |r| ensures key(r[i]) <= key(r[j]) {
        if i > 0 {
          assert r[i] == rest[i - 1] && r[j] == rest[j - 1];
        } else {
          assert r[j] == rest[j - 1];
        }
      }
    }
  }

  /** `orderBy(key)`: the rows sorted by `key`, as a permutation of them. */
  function SortBy<T(==)>(xs: seq<T>, key: T -> int): (r: seq<T>)
    ensures SortedBy(r, key)
    ensures multiset(r) == multiset(xs)
    decreases |xs|
  {
    if |xs| == 0 then []
    else
      var n := |xs| - 1;
      var sorted := SortBy(xs[..n], key);
      InsertBySorted(xs[n], sorted, key);
      InsertByContents(xs[n], sorted, key);
      assert xs == xs[..n] + [xs[n]];
      InsertBy(xs[n], sorted, key)
  }

  /** The head of the sorted rows is a row of the table with the least key. */
  lemma {:induction false} SortByHeadIsLeast<T>(xs: seq<T>, key: T -> int)
    requires |xs| > 0
    ensures |SortBy(xs, key)| == |xs|
    ensures SortBy(xs, key)[0] in xs
    ensures forall k :: 0 <= k < |xs| ==> key(SortBy(xs, key)[0]) <= key(xs[k])
  {
    var r := SortBy(xs, key);
    assert |r| == |multiset(r)| == |multiset(xs)| == |xs|;
    assert r[0] in multiset(r);
    forall k | 0 <= k < |xs| ensures key(r[0]) <= key(xs[k]) {
      assert xs[k] in multiset(xs);
      var m :| 0 <= m < |r| && r[m] == xs[k];
      if m > 0 {
        assert key(r[0]) <= key(r[m]);
      }
    }
  }

  /** Keys strictly increase along `xs` and lie in 1..next-1: an auto-increment id column. */
  predicate KeysBelow<T>(xs: seq<T>, key: T -> int, next: int) {
    && (forall i, j :: 0 <= i < j < |xs| ==> key(xs[i]) < key(xs[j]))
    && (forall i :: 0 <= i < |xs| ==> 0 < key(xs[i]) < next)
  }

  /**
   * The same column described the way it is built, one insert at a time:
   * the last id is below `next`, and the rows before it have ids below that.
   */
  predicate IdColumn<T>(xs: seq<T>, key: T -> int, next: int)
    decreases |xs|
  {
    if |xs| == 0 then next > 0
    else key(xs[|xs| - 1]) < next && IdColumn(xs[..|xs| - 1], key, key(xs[|xs| - 1]))
  }

  /** The two descriptions agree whenever the counter is positive. */
  lemma {:induction false} IdColumnIsKeysBelow<T>(xs: seq<T>, key: T -> int, next: int)
    ensures IdColumn(xs, key, next) <==> KeysBelow(xs, key, next) && next > 0
    decreases |xs|
  {
    if |xs| > 0 {
      var n := |xs| - 1;
      var init := xs[..n];
      IdColumnIsKeysBelow(init, key, key(xs[n]));
      assert forall i :: 0 <= i < n ==> init[i] == xs[i];
      if KeysBelow(xs, key, next) && next > 0 {
        assert KeysBelow(init, key, key(xs[n]));
      }
    }
  }

  /** Inserting a row with the next id keeps the column; the counter moves on. */
  lemma IdColumnAppend<T>(xs: seq<T>, key: T -> int, next: int, x: T)
    requires IdColumn(xs, key, next) && key(x) == next
    ensures IdColumn(xs + [x], key, next + 1)
  {
    assert (xs + [x])[..|xs|] == xs;
  }

  /** Rewriting a row without changing its id keeps the column. */
  lemma IdColumnUpdate<T>(xs: seq<T>, key: T -> int, next: int, i: nat, x: T)
    requires IdColumn(xs, key, next) && i < |xs| && key(x) == key(xs[i])
    ensures IdColumn(xs[i := x], key, next)
  {
    IdColumnIsKeysBelow(xs, key, next);
    IdColumnIsKeysBelow(xs[i := x], key, next);
  }
}
