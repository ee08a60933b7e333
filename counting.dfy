/**
 * Finite counting over sequences: sums, maxima, minima and occurrence counts.
 * These are the arithmetic facts the decision tree and the scoring utilities
 * rely on (Python's `sum`, `max`, `min` and counting with comprehensions).
 */
module Counting {

  /** Python's `sum` over a sequence of naturals. */
  function Sum(s: seq<nat>): nat
  {
    if s == [] then 0 else s[0] + Sum(s[1..])
  }

  /** Extending a prefix by one element. */
  lemma PrefixStep<T>(s: seq<T>, i: nat)
    requires i < |s|
    ensures s[..i + 1] == s[..i] + [s[i]]
  {
  }

  lemma {:induction false} SumConcat(a: seq<nat>, b: seq<nat>)
    ensures Sum(a + b) == Sum(a) + Sum(b)
  {
    if a == [] {
      assert a + b == b;
    } else {
      assert (a + b)[1..] == a[1..] + b;
      SumConcat(a[1..], b);
    }
  }

  lemma {:induction false} ElementBelowSum(s: seq<nat>, k: nat)
    requires k < |s|
    ensures s[k] <= Sum(s)
  {
    if k > 0 {
      ElementBelowSum(s[1..], k - 1);
    }
  }

  /** Removing the element at position k lowers the sum by exactly that element. */
  lemma {:induction false} SumRemove(s: seq<nat>, k: nat)
    requires k < |s|
    ensures Sum(s[..k] + s[k + 1..]) == Sum(s) - s[k]
  {
    assert s == s[..k] + [s[k]] + s[k + 1..];
    SumConcat(s[..k] + [s[k]], s[k + 1..]);
    SumConcat(s[..k], [s[k]]);
    SumConcat(s[..k], s[k + 1..]);
    assert Sum([s[k]]) == s[k] + Sum([]);
  }

  /** Replacing the element at position k by v changes the sum by v - s[k]. */
  lemma {:induction false} SumUpdate(s: seq<nat>, k: nat, v: nat)
    requires k < |s|
    ensures Sum(s[k := v]) == Sum(s) - s[k] + v
  {
    var t := s[k := v];
    assert s == s[..k] + [s[k]] + s[k + 1..];
    assert t == s[..k] + [v] + s[k + 1..];
    SumConcat(s[..k] + [s[k]], s[k + 1..]);
    SumConcat(s[..k], [s[k]]);
    SumConcat(s[..k] + [v], s[k + 1..]);
    SumConcat(s[..k], [v]);
    assert Sum([s[k]]) == s[k] + Sum([]);
    assert Sum([v]) == v + Sum([]);
  }

  /** Python's `max` over a non-empty sequence. */
  function Max(s: seq<nat>): (m: nat)
    requires |s| > 0
    ensures forall i :: 0 <= i < |s| ==> s[i] <= m
    ensures exists i :: 0 <= i < |s| && s[i] == m
  {
    if |s| == 1 then s[0]
    else
      var m' := Max(s[1..]);
      assert forall i :: 1 <= i < |s| ==> s[i] == s[1..][i - 1];
      if s[0] >= m' then s[0] else m'
  }

  /** Python's `min` over a non-empty sequence. */
  function Min(s: seq<nat>): (m: nat)
    requires |s| > 0
    ensures forall i :: 0 <= i < |s| ==> m <= s[i]
    ensures exists i :: 0 <= i < |s| && s[i] == m
  {
    if |s| == 1 then s[0]
    else
      var m' := Min(s[1..]);
      assert forall i :: 1 <= i < |s| ==> s[i] == s[1..][i - 1];
      if s[0] <= m' then s[0] else m'
  }

  /** Number of positions of xs holding v. */
  function Occurrences(xs: seq<int>, v: int): nat
  {
    if xs == [] then 0
    else Occurrences(xs[..|xs| - 1], v) + (if xs[|xs| - 1] == v then 1 else 0)
  }

  lemma {:induction false} OccurrencesBound(xs: seq<int>, v: int)
    ensures Occurrences(xs, v) <= |xs|
    ensures Occurrences(xs, v) == |xs| <==> forall k :: 0 <= k < |xs| ==> xs[k] == v
    ensures Occurrences(xs, v) > 0 <==> v in xs
  {
    if xs != [] {
      var init := xs[..|xs| - 1];
      OccurrencesBound(init, v);
      assert forall k :: 0 <= k < |init| ==> init[k] == xs[k];
      assert xs == init + [xs[|xs| - 1]];
    }
  }

  /** No value is listed twice. */
  predicate Distinct<T(==)>(u: seq<T>)
  {
    forall i, j :: 0 <= i < j < |u| ==> u[i] != u[j]
  }

  /** A list without repetitions has as many members as positions. */
  lemma {:induction false} DistinctCard<T>(s: seq<T>)
    requires Distinct(s)
    ensures |set x | x in s| == |s|
  {
    if s != [] {
      var n := |s| - 1;
      DistinctCard(s[..n]);
      assert s[n] !in s[..n];
      assert (set x | x in s) == (set x | x in s[..n]) + {s[n]} by {
        assert s == s[..n] + [s[n]];
      }
    }
  }

  /** A list has at most as many members as positions. */
  lemma {:induction false} CardAtMost<T>(s: seq<T>)
    ensures |set x | x in s| <= |s|
  {
    if s != [] {
      var n := |s| - 1;
      CardAtMost(s[..n]);
      assert (set x | x in s) == (set x | x in s[..n]) + {s[n]} by {
        assert s == s[..n] + [s[n]];
      }
    }
  }

  /** A subset at least as large as its superset is the whole superset. */
  lemma SubsetOfEqualCard<T>(a: set<T>, b: set<T>)
    requires a <= b && |b| <= |a|
    ensures a == b
  {
    if a != b {
      var x :| x in b && x !in a;
      assert a <= b - {x};
      assert |b - {x}| == |b| - 1;
      SubsetCard(a, b - {x});
    }
  }

  lemma {:induction false} SubsetCard<T>(a: set<T>, b: set<T>)
    requires a <= b
    ensures |a| <= |b|
  {
    assert b == a + (b - a);
  }

  /** In a list without repetitions a value occurs once or not at all. */
  lemma {:induction false} OccurrencesInDistinct(u: seq<int>, v: int)
    requires Distinct(u)
    ensures Occurrences(u, v) == if v in u then 1 else 0
  {
    if u != [] {
      var init := u[..|u| - 1];
      assert Distinct(init);
      OccurrencesInDistinct(init, v);
      assert u == init + [u[|u| - 1]];
      if u[|u| - 1] == v {
        assert v !in init;
      }
    }
  }

  /** The sum, over the values listed in u, of how often each occurs in xs. */
  function SumOccurrences(xs: seq<int>, u: seq<int>): nat
  {
    if u == [] then 0 else Occurrences(xs, u[0]) + SumOccurrences(xs, u[1..])
  }

  lemma {:induction false} SumOccurrencesAppend(xs: seq<int>, x: int, u: seq<int>)
    ensures SumOccurrences(xs + [x], u) == SumOccurrences(xs, u) + Occurrences(u, x)
  {
    if u != [] {
      SumOccurrencesAppend(xs, x, u[1..]);
      assert (xs + [x])[..|xs + [x]| - 1] == xs;
      OccurrencesFront(u, x);
    }
  }

  /** Occurrences read from the front of the list. */
  lemma {:induction false} OccurrencesFront(u: seq<int>, x: int)
    requires u != []
    ensures Occurrences(u, x) == (if u[0] == x then 1 else 0) + Occurrences(u[1..], x)
  {
    if |u| > 1 {
      var init := u[..|u| - 1];
      OccurrencesFront(init, x);
      assert init[1..] == u[1..][..|u[1..]| - 1];
    } else {
      assert u[..|u| - 1] == [];
      assert u[1..] == [];
    }
  }

  /**
   * Counting every value of a list u that has no repetitions and holds every
   * element of xs counts every position of xs exactly once.
   */
  lemma {:induction false} SumOccurrencesCovers(xs: seq<int>, u: seq<int>)
    requires Distinct(u)
    requires forall k :: 0 <= k < |xs| ==> xs[k] in u
    ensures SumOccurrences(xs, u) == |xs|
  {
    if xs == [] {
      SumOccurrencesOfEmpty(u);
    } else {
      var init := xs[..|xs| - 1];
      assert forall k :: 0 <= k < |init| ==> init[k] == xs[k];
      SumOccurrencesCovers(init, u);
      assert xs == init + [xs[|xs| - 1]];
      SumOccurrencesAppend(init, xs[|xs| - 1], u);
      OccurrencesInDistinct(u, xs[|xs| - 1]);
    }
  }

  lemma {:induction false} SumOccurrencesOfEmpty(u: seq<int>)
    ensures SumOccurrences([], u) == 0
  {
    if u != [] {
      SumOccurrencesOfEmpty(u[1..]);
    }
  }

  /** The list 0, 1, ..., n - 1. */
  function Range(n: nat): (r: seq<int>)
    ensures |r| == n
    ensures forall i :: 0 <= i < n ==> r[i] == i
  {
    seq(n, i => i)
  }

  /** Summing the per-value occurrence counts of a list of values, written as a row. */
  lemma {:induction false} SumOfOccurrenceRow(xs: seq<int>, u: seq<int>)
    ensures Sum(seq(|u|, j requires 0 <= j < |u| => Occurrences(xs, u[j]))) == SumOccurrences(xs, u)
  {
    var row := seq(|u|, j requires 0 <= j < |u| => Occurrences(xs, u[j]));
    if u != [] {
      SumOfOccurrenceRow(xs, u[1..]);
      assert row[1..] == seq(|u[1..]|, j requires 0 <= j < |u[1..]| => Occurrences(xs, u[1..][j]));
    }
  }
}
