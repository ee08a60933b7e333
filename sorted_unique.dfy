/**
 * The sorted list of distinct values of a sequence, as `np.unique(xs)` and
 * `sorted(set(xs))` produce it.
 */
module SortedUnique {
  import opened Counting

  predicate Ascending(s: seq<int>)
  {
    forall i, j :: 0 <= i < j < |s| ==> s[i] < s[j]
  }

  lemma AscendingIsDistinct(s: seq<int>)
    requires Ascending(s)
    ensures Distinct(s)
  {
  }

  /** Inserts x into a strictly ascending list, keeping it strictly ascending. */
  function Insert(s: seq<int>, x: int): (r: seq<int>)
    requires Ascending(s)
    ensures Ascending(r)
    ensures forall v :: v in r <==> v in s || v == x
  {
    if s == [] then [x]
    else if x < s[0] then
      assert forall v :: v in s ==> x < v by {
        assert forall k :: 0 <= k < |s| ==> s[0] <= s[k];
      }
      AscendingCons(x, s);
      [x] + s
    else if x == s[0] then s
    else
      var rest := Insert(s[1..], x);
      assert forall v :: v in rest ==> s[0] < v;
      AscendingCons(s[0], rest);
      [s[0]] + rest
  }

  /** A value below every element of an ascending list can go in front of it. */
  lemma AscendingCons(a: int, rest: seq<int>)
    requires Ascending(rest)
    requires forall v :: v in rest ==> a < v
    ensures Ascending([a] + rest)
  {
    var r := [a] + rest;
    forall i, j | 0 <= i < j < |r|
      ensures r[i] < r[j]
    {
      assert r[j] == rest[j - 1];
      if i == 0 {
        assert rest[j - 1] in rest;
      } else {
        assert r[i] == rest[i - 1];
      }
    }
  }

  /** np.unique: the distinct values of xs in ascending order. */
  function Unique(xs: seq<int>): (r: seq<int>)
    ensures Ascending(r)
    ensures forall v :: v in r <==> v in xs
  {
    if xs == [] then []
    else
      var init := xs[..|xs| - 1];
      assert xs == init + [xs[|xs| - 1]];
      Insert(Unique(init), xs[|xs| - 1])
  }

  /** Two strictly ascending lists with the same members are equal. */
  lemma {:induction false} AscendingUnique(a: seq<int>, b: seq<int>)
    requires Ascending(a) && Ascending(b)
    requires forall v :: v in a <==> v in b
    ensures a == b
  {
    assert a != [] ==> a[0] in a && a[0] in b;
    assert b != [] ==> b[0] in b && b[0] in a;
    if a != [] {
      assert a[0] == b[0];
      assert forall v :: v in a[1..] <==> v in b[1..] by {
        forall v
          ensures v in a[1..] <==> v in b[1..]
        {
          if v in a[1..] {
            assert v in b && v != b[0];
          }
          if v in b[1..] {
            assert v in a && v != a[0];
          }
        }
      }
      AscendingUnique(a[1..], b[1..]);
      assert a == [a[0]] + a[1..] && b == [b[0]] + b[1..];
    }
  }

  /** If every element of xs equals v (and there is one), np.unique gives [v]. */
  lemma UniqueOfConstant(xs: seq<int>, v: int)
    requires |xs| > 0
    requires forall k :: 0 <= k < |xs| ==> xs[k] == v
    ensures Unique(xs) == [v]
  {
    assert xs[0] in xs;
    AscendingUnique(Unique(xs), [v]);
  }
}
