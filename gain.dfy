/**
 * Entropy, information gain and the choice of the split attribute
 * (entropy and DecisionTree._best_attribute of 3/decision_tree.py). The
 * arithmetic is over exact reals and the base-2 logarithm is a parameter,
 * so only facts that hold for every logarithm with log2(1) == 0 are proved.
 */
module Gain {
  import opened Counting
  import opened SortedUnique
  import opened Counts
  import opened Table
  import opened Partitions

  /** np.bincount(ys) / len(ys): the relative frequency of each class 0..max(ys). */
  function Probabilities(ys: seq<nat>): (ps: seq<real>)
    ensures |ps| == |BinCount(ys)|
    ensures forall c :: 0 <= c < |ps| ==> ps[c] == BinCount(ys)[c] as real / |ys| as real
  {
    var bc := BinCount(ys);
    seq(|bc|, c requires 0 <= c < |bc| => bc[c] as real / |ys| as real)
  }

  /** sum(p * log2(p) for p in ps if p) */
  function PLogP(ps: seq<real>, log2: real -> real): real
  {
    if ps == [] then 0.0
    else (if ps[0] != 0.0 then ps[0] * log2(ps[0]) else 0.0) + PLogP(ps[1..], log2)
  }

  /** entropy(Y) = -sum(p * log2(p)) over the non-zero class frequencies. */
  function Entropy(ys: seq<nat>, log2: real -> real): real
  {
    -1.0 * PLogP(Probabilities(ys), log2)
  }

  /** [Y[p] for p in groups]: the labels of each group of positions. */
  function LabelGroups(ys: seq<nat>, groups: seq<Group>): (parts: seq<seq<nat>>)
    requires GroupsBelow(groups, |ys|)
    ensures |parts| == |groups|
    ensures forall k :: 0 <= k < |groups| ==> parts[k] == Select(ys, groups[k].indices)
  {
    seq(|groups|, k requires 0 <= k < |groups| => Select(ys, groups[k].indices))
  }

  /** sum(len(p) / n * f(Y[p]) for p in ...): each group's value of f weighted by its share of the n positions. */
  function WeightedSum(parts: seq<seq<nat>>, n: nat, f: seq<nat> -> real): real
    requires n > 0 || parts == []
  {
    if parts == [] then 0.0
    else (|parts[0]| as real / n as real) * f(parts[0]) + WeightedSum(parts[1..], n, f)
  }

  /** entropy(Y) - entropy_Y_Xa for the attribute column xa. */
  function InfoGain(ys: seq<nat>, xa: seq<int>, log2: real -> real): real
    requires |ys| == |xa|
  {
    var g := Partition(xa);
    assert xa == [] ==> g == [];
    Entropy(ys, log2) - WeightedSum(LabelGroups(ys, g), |xa|, p => Entropy(p, log2))
  }

  /** [gain(Y, X[:, j]) for j in 1..width-1]: the gain of every attribute column, in column order. */
  function Gains(data: seq<Row>, width: nat, log2: real -> real): seq<real>
    requires Rectangular(data, width)
  {
    var ys := Labels(data);
    seq(width - 1, i requires 0 <= i < width - 1 => InfoGain(ys, Column(data, i + 1), log2))
  }

  /**
   * The fold of _best_attribute over a list of gains: start from (-1, -1)
   * and take attribute i + 1 whenever its gain is strictly greater than the
   * best so far. The result is the first maximal gain and its 1-based
   * position, or (-1, -1) when no gain exceeds -1.
   */
  function Best(gains: seq<real>): (r: (real, int))
    ensures r.1 == -1 ==> r.0 == -1.0 && forall i :: 0 <= i < |gains| ==> gains[i] <= -1.0
    ensures r.1 != -1 ==>
      && 1 <= r.1 <= |gains|
      && r.0 == gains[r.1 - 1]
      && r.0 > -1.0
      && (forall i :: 0 <= i < |gains| ==> gains[i] <= r.0)
      && (forall i :: 0 <= i < r.1 - 1 ==> gains[i] < r.0)
  {
    if gains == [] then (-1.0, -1)
    else
      var n := |gains| - 1;
      var prev := Best(gains[..n]);
      assert forall i :: 0 <= i < n ==> gains[..n][i] == gains[i];
      if gains[n] > prev.0 then (gains[n], n + 1) else prev
  }

  /** A positive best gain names an attribute column holding at least two distinct values. */
  lemma PositiveBestSplits(data: seq<Row>, width: nat, log2: real -> real)
    requires Rectangular(data, width)
    requires Best(Gains(data, width, log2)).0 > 0.0
    ensures 1 <= Best(Gains(data, width, log2)).1 < width
    ensures |Unique(Column(data, Best(Gains(data, width, log2)).1))| >= 2
  {
    var best := Best(Gains(data, width, log2));
    PositiveGainSplits(Labels(data), Column(data, best.1), log2);
  }

  /** One more gain: the fold takes it exactly when it beats the best so far. */
  lemma BestStep(gs: seq<real>, i: nat)
    requires i < |gs|
    ensures Best(gs[..i + 1]) == if gs[i] > Best(gs[..i]).0 then (gs[i], i + 1) else Best(gs[..i])
  {
    assert gs[..i + 1][..i] == gs[..i];
  }

  /** DecisionTree._best_attribute: the loop over the attribute columns. */
  method BestAttribute(data: seq<Row>, width: nat, log2: real -> real) returns (bestGain: real, bestAttr: int)
    requires Rectangular(data, width)
    ensures (bestGain, bestAttr) == Best(Gains(data, width, log2))
  {
    bestGain, bestAttr := -1.0, -1;
    var gs := Gains(data, width, log2);
    for i := 0 to width - 1
      invariant (bestGain, bestAttr) == Best(gs[..i])
    {
      var gain := gs[i];
      BestStep(gs, i);
      if gain > bestGain {
        bestGain := gain;
        bestAttr := i + 1;
      }
    }
    assert gs[..width - 1] == gs;
  }

  /** The frequencies 0 / n and n / n. */
  lemma Ratio(a: nat, n: nat)
    requires n > 0
    ensures a == 0 ==> a as real / n as real == 0.0
    ensures a == n ==> a as real / n as real == 1.0
  {
  }

  /** A list of class frequencies that are all 0 or 1 contributes nothing to the entropy. */
  lemma {:induction false} PLogPOfZeroOne(ps: seq<real>, log2: real -> real)
    requires log2(1.0) == 0.0
    requires forall c :: 0 <= c < |ps| ==> ps[c] == 0.0 || ps[c] == 1.0
    ensures PLogP(ps, log2) == 0.0
  {
    if ps != [] {
      PLogPOfZeroOne(ps[1..], log2);
    }
  }

  /** Labels of a single class have entropy 0 (and so has the empty label list). */
  lemma EntropyOfPure(ys: seq<nat>, log2: real -> real)
    requires log2(1.0) == 0.0
    requires forall k :: 0 <= k < |ys| ==> ys[k] == ys[0]
    ensures Entropy(ys, log2) == 0.0
  {
    if ys != [] {
      PureProbabilities(ys);
      PLogPOfZeroOne(Probabilities(ys), log2);
    }
  }

  /** The class frequencies of labels of a single class are all 0 or 1. */
  lemma PureProbabilities(ys: seq<nat>)
    requires |ys| > 0
    requires forall k :: 0 <= k < |ys| ==> ys[k] == ys[0]
    ensures forall c :: 0 <= c < |Probabilities(ys)| ==> Probabilities(ys)[c] == 0.0 || Probabilities(ys)[c] == 1.0
  {
    var bc := BinCount(ys);
    BinCountOfPure(ys, ys[0]);
    forall c | 0 <= c < |bc|
      ensures bc[c] as real / |ys| as real == 0.0 || bc[c] as real / |ys| as real == 1.0
    {
      Ratio(bc[c], |ys|);
    }
  }

  /** Splitting on a column that holds a single value gains exactly nothing. */
  lemma SingleValuedGain(ys: seq<nat>, xa: seq<int>, log2: real -> real)
    requires |ys| == |xa|
    requires |Unique(xa)| <= 1
    ensures InfoGain(ys, xa, log2) == 0.0
  {
    if xa != [] {
      var v := xa[0];
      assert v in Unique(xa);
      assert Unique(xa) == [v];
      assert forall i :: 0 <= i < |xa| ==> xa[i] in Unique(xa);
      PartitionOfConstant(xa, v);
      WholeGroupLabels(ys, v);
      WholeGroupWeight(ys, p => Entropy(p, log2));
    }
  }

  /** The labels of a single group holding every position are all the labels. */
  lemma WholeGroupLabels(ys: seq<nat>, v: int)
    ensures GroupsBelow([Group(v, Range(|ys|))], |ys|)
    ensures LabelGroups(ys, [Group(v, Range(|ys|))]) == [ys]
  {
    var g := [Group(v, Range(|ys|))];
    assert GroupsBelow(g, |ys|);
    assert Select(ys, Range(|ys|)) == ys;
  }

  /** All positions as one group weigh its value by one. */
  lemma WholeGroupWeight(ys: seq<nat>, f: seq<nat> -> real)
    requires |ys| > 0
    ensures WeightedSum([ys], |ys|, f) == f(ys)
  {
    Ratio(|ys|, |ys|);
    assert [ys][1..] == [];
  }

  /** A positive gain means the column holds at least two distinct values. */
  lemma PositiveGainSplits(ys: seq<nat>, xa: seq<int>, log2: real -> real)
    requires |ys| == |xa|
    requires InfoGain(ys, xa, log2) > 0.0
    ensures |Unique(xa)| >= 2
  {
    if |Unique(xa)| <= 1 {
      SingleValuedGain(ys, xa, log2);
    }
  }
}
