/**
 * partition(Xa) of 3/decision_tree.py: the positions of a column grouped by
 * the value found there, the groups listed in ascending value order (the
 * order np.unique gives and the dictionary keeps).
 */
module Partitions {
  import opened Counting
  import opened SortedUnique
  import opened Table

  /** np.where(xs == v)[0]: the positions of xs holding v, in ascending order. */
  function IndicesOf(xs: seq<int>, v: int): (r: seq<int>)
    ensures Ascending(r)
    ensures forall i :: i in r <==> 0 <= i < |xs| && xs[i] == v
    ensures forall k :: 0 <= k < |r| ==> 0 <= r[k] < |xs| && xs[r[k]] == v
    ensures IndicesBelow(r, |xs|)
  {
    if xs == [] then []
    else
      var n := |xs| - 1;
      var init := IndicesOf(xs[..n], v);
      assert forall i :: 0 <= i < n ==> xs[..n][i] == xs[i];
      init + (if xs[n] == v then [n] else [])
  }

  /** One entry of the dictionary: a value and the positions holding it. */
  datatype Group = Group(value: int, indices: seq<int>)

  /** Every group lists positions 0..n-1 only. */
  predicate GroupsBelow(g: seq<Group>, n: nat)
  {
    forall k :: 0 <= k < |g| ==> IndicesBelow(g[k].indices, n)
  }

  /** {v: np.where(xs == v)[0] for v in np.unique(xs)} as a list of entries in key order. */
  function Partition(xs: seq<int>): (g: seq<Group>)
    ensures |g| == |Unique(xs)|
    ensures GroupsBelow(g, |xs|)
    ensures forall k :: 0 <= k < |g| ==> g[k] == Group(Unique(xs)[k], IndicesOf(xs, Unique(xs)[k]))
  {
    var u := Unique(xs);
    seq(|u|, k requires 0 <= k < |u| => Group(u[k], IndicesOf(xs, u[k])))
  }

  /** The keys of the partition, in order. */
  function Keys(g: seq<Group>): (ks: seq<int>)
    ensures |ks| == |g| && forall k :: 0 <= k < |g| ==> ks[k] == g[k].value
  {
    seq(|g|, k requires 0 <= k < |g| => g[k].value)
  }

  /** The sizes of the groups, in order. */
  function Sizes(g: seq<Group>): (ns: seq<nat>)
    ensures |ns| == |g| && forall k :: 0 <= k < |g| ==> ns[k] == |g[k].indices|
  {
    seq(|g|, k requires 0 <= k < |g| => |g[k].indices|)
  }

  /** The size of the group of v is the number of occurrences of v. */
  lemma {:induction false} IndicesOfCount(xs: seq<int>, v: int)
    ensures |IndicesOf(xs, v)| == Occurrences(xs, v)
  {
    if xs != [] {
      var n := |xs| - 1;
      IndicesOfCount(xs[..n], v);
    }
  }

  /**
   * The keys are exactly the distinct values of the column, ascending; every
   * group is non-empty and ascending and holds exactly the positions of its
   * key.
   */
  lemma PartitionGroups(xs: seq<int>)
    ensures Ascending(Keys(Partition(xs)))
    ensures forall v :: v in Keys(Partition(xs)) <==> v in xs
    ensures forall k :: 0 <= k < |Partition(xs)| ==>
      var gk := Partition(xs)[k];
      && |gk.indices| > 0
      && Ascending(gk.indices)
      && forall i :: i in gk.indices <==> 0 <= i < |xs| && xs[i] == gk.value
  {
    var g := Partition(xs);
    assert Keys(g) == Unique(xs);
    forall k | 0 <= k < |g|
      ensures |g[k].indices| > 0
    {
      var v := g[k].value;
      assert v in Unique(xs);
      var i :| 0 <= i < |xs| && xs[i] == v;
      assert i in g[k].indices;
    }
  }

  /** Distinct groups share no position. */
  lemma PartitionDisjoint(xs: seq<int>)
    ensures forall k, l :: 0 <= k < l < |Partition(xs)| ==>
      forall i :: i in Partition(xs)[k].indices ==> i !in Partition(xs)[l].indices
  {
    var g := Partition(xs);
    var u := Unique(xs);
    forall k, l | 0 <= k < l < |g|
      ensures forall i :: i in g[k].indices ==> i !in g[l].indices
    {
      assert g[k].indices == IndicesOf(xs, u[k]) && g[l].indices == IndicesOf(xs, u[l]);
      assert u[k] < u[l];
    }
  }

  /** Position i lies in the group keyed xs[i]. */
  lemma PartitionFindsEvery(xs: seq<int>)
    ensures forall i :: 0 <= i < |xs| ==>
      exists k :: 0 <= k < |Partition(xs)| && Partition(xs)[k].value == xs[i] && i in Partition(xs)[k].indices
  {
    var g := Partition(xs);
    var u := Unique(xs);
    forall i | 0 <= i < |xs|
      ensures exists k :: 0 <= k < |g| && g[k].value == xs[i] && i in g[k].indices
    {
      assert xs[i] in u;
      var k :| 0 <= k < |u| && u[k] == xs[i];
      assert i in g[k].indices;
    }
  }

  /** The group sizes add up to the length of the column. */
  lemma PartitionSizes(xs: seq<int>)
    ensures Sum(Sizes(Partition(xs))) == |xs|
  {
    var g := Partition(xs);
    var u := Unique(xs);
    forall k | 0 <= k < |u|
      ensures Sizes(g)[k] == Occurrences(xs, u[k])
    {
      IndicesOfCount(xs, u[k]);
    }
    assert Sizes(g) == seq(|u|, j requires 0 <= j < |u| => Occurrences(xs, u[j]));
    SumOfOccurrenceRow(xs, u);
    AscendingIsDistinct(u);
    SumOccurrencesCovers(xs, u);
  }

  /** When the column holds two or more distinct values, the positions of any one value are fewer than all. */
  lemma IndicesShrink(xs: seq<int>, v: int)
    requires |Unique(xs)| >= 2
    ensures |IndicesOf(xs, v)| < |xs|
  {
    IndicesOfCount(xs, v);
    OccurrencesBound(xs, v);
    if Occurrences(xs, v) == |xs| {
      UniqueOfConstant(xs, v);
    }
  }

  /** A column holding one value forms a single group of all positions. */
  lemma PartitionOfConstant(xs: seq<int>, v: int)
    requires |xs| > 0
    requires forall i :: 0 <= i < |xs| ==> xs[i] == v
    ensures Partition(xs) == [Group(v, Range(|xs|))]
  {
    UniqueOfConstant(xs, v);
    var r := IndicesOf(xs, v);
    var all := Range(|xs|);
    assert Ascending(all);
    forall i
      ensures i in r <==> i in all
    {
      if 0 <= i < |xs| {
        assert all[i] == i;
      }
    }
    AscendingUnique(r, Range(|xs|));
  }
}
