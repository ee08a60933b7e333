/**
 * Per-class sample counts of a tree node: `np.bincount` of the labels and the
 * majority class `nsamples.argmax()` (3/decision_tree.py, Node and _build_tree).
 */
module Counts {
  import opened Counting

  /** The largest label, which fixes the length of np.bincount's result. */
  function MaxLabel(ys: seq<nat>): (m: nat)
    requires |ys| > 0
    ensures forall k :: 0 <= k < |ys| ==> ys[k] <= m
    ensures m in ys
  {
    if |ys| == 1 then ys[0]
    else
      var m' := MaxLabel(ys[1..]);
      assert forall k :: 1 <= k < |ys| ==> ys[k] == ys[1..][k - 1];
      if ys[0] >= m' then ys[0] else m'
  }

  /**
   * np.bincount(ys): one slot per class from 0 up to the largest label, each
   * holding how often that class occurs (zero slots included); empty for no labels.
   */
  function BinCount(ys: seq<nat>): (r: seq<nat>)
    ensures forall c :: 0 <= c < |r| ==> r[c] == Occurrences(ys, c)
    ensures forall k :: 0 <= k < |ys| ==> ys[k] < |r|
    ensures r == [] <==> ys == []
    ensures r != [] ==> r[|r| - 1] > 0
  {
    if ys == [] then []
    else
      var m := MaxLabel(ys);
      OccurrencesBound(ys, m);
      seq(m + 1, c => Occurrences(ys, c))
  }

  /** The counts add up to the number of labels. */
  lemma BinCountSum(ys: seq<nat>)
    ensures Sum(BinCount(ys)) == |ys|
  {
    var r := BinCount(ys);
    SumAsOccurrences(ys, r, 0);
    assert r[0..] == r;
    assert Range(|r|)[0..] == Range(|r|);
    assert forall k :: 0 <= k < |ys| ==> Range(|r|)[ys[k]] == ys[k];
    SumOccurrencesCovers(ys, Range(|r|));
  }

  lemma {:induction false} SumAsOccurrences(ys: seq<nat>, r: seq<nat>, j: nat)
    requires r == BinCount(ys)
    requires j <= |r|
    ensures Sum(r[j..]) == SumOccurrences(ys, Range(|r|)[j..])
    decreases |r| - j
  {
    if j < |r| {
      SumAsOccurrences(ys, r, j + 1);
      assert r[j..][1..] == r[j + 1..];
      assert Range(|r|)[j..][1..] == Range(|r|)[j + 1..];
    }
  }

  /**
   * nsamples.argmax(): the first class with the largest count.
   */
  function ArgMax(s: seq<nat>): (r: nat)
    requires |s| > 0
    ensures r < |s|
    ensures forall j :: 0 <= j < |s| ==> s[j] <= s[r]
    ensures forall j :: 0 <= j < r ==> s[j] < s[r]
  {
    if |s| == 1 then 0
    else
      var k := ArgMax(s[..|s| - 1]);
      if s[|s| - 1] > s[k] then |s| - 1 else k
  }

  /** Labels that are all c count c | ys | times and every other class zero times. */
  lemma {:induction false} BinCountOfPure(ys: seq<nat>, c: nat)
    requires |ys| > 0
    requires forall k :: 0 <= k < |ys| ==> ys[k] == c
    ensures BinCount(ys) == seq(c, d => 0) + [|ys|]
    ensures |BinCount(ys)| == c + 1 && BinCount(ys)[c] == |ys|
    ensures forall d :: 0 <= d < c ==> BinCount(ys)[d] == 0
    ensures ArgMax(BinCount(ys)) == c
  {
    var r := BinCount(ys);
    OccurrencesBound(ys, c);
    forall d | 0 <= d < |r| && d != c
      ensures r[d] == 0
    {
      OccurrencesBound(ys, d);
      assert ys[0] != d;
    }
    assert |r| == c + 1 by {
      assert ys[0] < |r|;
      assert r[|r| - 1] > 0;
    }
    assert r == seq(c, d => 0) + [|ys|];
  }
}
