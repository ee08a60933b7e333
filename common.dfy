/**
 * Label-comparison utilities of 2/common.py: accuracy and the confusion matrix.
 */
module Common {
  import opened Counting
  import opened SortedUnique

  /** Number of positions where the actual and the predicted label agree. */
  function Correct<T(==)>(actual: seq<T>, predicted: seq<T>): (n: nat)
    requires |actual| == |predicted|
    ensures n <= |actual|
    ensures n == |actual| <==> forall i :: 0 <= i < |actual| ==> actual[i] == predicted[i]
  {
    if actual == [] then 0
    else
      var k := |actual| - 1;
      var n' := Correct(actual[..k], predicted[..k]);
      assert forall i :: 0 <= i < k ==> actual[..k][i] == actual[i] && predicted[..k][i] == predicted[i];
      n' + (if actual[k] == predicted[k] then 1 else 0)
  }

  /**
   * accuracy(actual, predicted): the fraction of positions that agree, for
   * labels of any type with equality. The source asserts equal lengths and
   * divides by len(actual), so both sequences must be non-empty.
   */
  function Accuracy<T(==)>(actual: seq<T>, predicted: seq<T>): (r: real)
    requires |actual| == |predicted|
    requires |actual| > 0
    ensures r * |actual| as real == Correct(actual, predicted) as real
    ensures 0.0 <= r <= 1.0
    ensures r == 1.0 <==> forall i :: 0 <= i < |actual| ==> actual[i] == predicted[i]
  {
    var c := Correct(actual, predicted);
    Fraction(c, |actual|);
    c as real / |actual| as real
  }

  /** The fraction c / n of a count c out of n lies in [0, 1] and is 1 exactly when c == n. */
  lemma Fraction(c: nat, n: nat)
    requires 0 < n && c <= n
    ensures (c as real / n as real) * n as real == c as real
    ensures 0.0 <= c as real / n as real <= 1.0
    ensures c as real / n as real == 1.0 <==> c == n
  {
    var r := c as real / n as real;
    assert r * n as real == c as real;
    assert r > 1.0 ==> r * n as real > 1.0 * n as real;
    assert r == 1.0 ==> c as real == n as real;
  }

  /** Number of positions below n whose actual label is a and whose predicted label is p. */
  function PairCount(actual: seq<int>, predicted: seq<int>, n: nat, a: int, p: int): nat
    requires |actual| == |predicted| && n <= |actual|
  {
    if n == 0 then 0
    else PairCount(actual, predicted, n - 1, a, p) + (if actual[n - 1] == a && predicted[n - 1] == p then 1 else 0)
  }

  /**
   * The confusion matrix as a value: rows and columns follow the distinct
   * actual labels in ascending order, and entry (i, j) counts the positions
   * with actual label labels[i] and predicted label labels[j].
   */
  function Confusion(actual: seq<int>, predicted: seq<int>): (m: seq<seq<nat>>)
    requires |actual| == |predicted|
    ensures |m| == |Unique(actual)|
  {
    var labels := Unique(actual);
    seq(|labels|, i requires 0 <= i < |labels| =>
      seq(|labels|, j requires 0 <= j < |labels| => PairCount(actual, predicted, |actual|, labels[i], labels[j])))
  }

  /**
   * make_confusion(actual, predicted): builds a nested dictionary over the
   * classes of `actual`, increments one cell per position, then lists the
   * rows and columns in sorted class order. A predicted label that is not an
   * actual label is a key error in the source, hence the second requires.
   */
  method MakeConfusion(actual: seq<int>, predicted: seq<int>) returns (cmm: seq<seq<int>>)
    requires |actual| == |predicted|
    requires forall i :: 0 <= i < |predicted| ==> predicted[i] in actual
    ensures cmm == Confusion(actual, predicted)
  {
    // sorted(cm) and sorted(cm[a]) list the distinct actual labels in ascending order
    var keys := Unique(actual);
    var classes := set c | c in keys;
    LabelsInKeys(actual, predicted, keys);
    KeysInClasses(actual, predicted, keys, classes);
    var cm := TallyPairs(actual, predicted, classes);
    TallyRows(cm, actual, predicted, keys, classes);
    cmm := Rows(cm, keys, Confusion(actual, predicted));
  }

  lemma LabelsInKeys(actual: seq<int>, predicted: seq<int>, keys: seq<int>)
    requires |actual| == |predicted|
    requires forall i :: 0 <= i < |predicted| ==> predicted[i] in actual
    requires keys == Unique(actual)
    ensures forall i :: 0 <= i < |actual| ==> actual[i] in keys && predicted[i] in keys
  {
  }

  lemma KeysInClasses(actual: seq<int>, predicted: seq<int>, keys: seq<int>, classes: set<int>)
    requires |actual| == |predicted|
    requires forall i :: 0 <= i < |actual| ==> actual[i] in keys && predicted[i] in keys
    requires classes == set c | c in keys
    ensures forall i :: 0 <= i < |actual| ==> actual[i] in classes && predicted[i] in classes
    ensures forall j :: 0 <= j < |keys| ==> keys[j] in classes
  {
  }

  lemma TallyRows(cm: map<int, map<int, int>>, actual: seq<int>, predicted: seq<int>, keys: seq<int>, classes: set<int>)
    requires |actual| == |predicted| && keys == Unique(actual)
    requires forall j :: 0 <= j < |keys| ==> keys[j] in classes
    requires Tallied(cm, actual, predicted, |actual|, classes)
    ensures forall i :: 0 <= i < |keys| ==> keys[i] in cm && forall j :: 0 <= j < |keys| ==> keys[j] in cm[keys[i]]
    ensures |Confusion(actual, predicted)| == |keys|
    ensures forall i :: 0 <= i < |keys| ==> Row(cm, keys, keys[i]) == Confusion(actual, predicted)[i]
  {
    var m := Confusion(actual, predicted);
    forall i | 0 <= i < |keys|
      ensures keys[i] in cm && (forall j :: 0 <= j < |keys| ==> keys[j] in cm[keys[i]])
      ensures Row(cm, keys, keys[i]) == m[i]
    {
      RowOfTally(cm, actual, predicted, keys, classes, i);
    }
  }

  /**
   * [[cm[a][p] for p in sorted(cm[a])] for a in sorted(cm)], the keys being
   * listed in `keys`; the result is the matrix m whose rows those are.
   */
  method Rows(cm: map<int, map<int, int>>, keys: seq<int>, ghost m: seq<seq<int>>) returns (cmm: seq<seq<int>>)
    requires forall i :: 0 <= i < |keys| ==> keys[i] in cm && forall j :: 0 <= j < |keys| ==> keys[j] in cm[keys[i]]
    requires |m| == |keys| && forall i :: 0 <= i < |keys| ==> Row(cm, keys, keys[i]) == m[i]
    ensures cmm == m
  {
    cmm := [];
    for i := 0 to |keys|
      invariant cmm == m[..i]
    {
      PrefixStep(m, i);
      cmm := cmm + [Row(cm, keys, keys[i])];
    }
    assert m[..|keys|] == m;
  }

  /** [cm[a][p] for p in sorted(cm[a])], the keys being listed in `keys`. */
  function Row(cm: map<int, map<int, int>>, keys: seq<int>, a: int): (row: seq<int>)
    requires a in cm && forall j :: 0 <= j < |keys| ==> keys[j] in cm[a]
    ensures |row| == |keys| && forall j :: 0 <= j < |keys| ==> row[j] == cm[a][keys[j]]
  {
    seq(|keys|, j requires 0 <= j < |keys| => cm[a][keys[j]])
  }

  lemma RowOfTally(cm: map<int, map<int, int>>, actual: seq<int>, predicted: seq<int>, keys: seq<int>, classes: set<int>, i: nat)
    requires |actual| == |predicted| && keys == Unique(actual) && i < |keys|
    requires forall j :: 0 <= j < |keys| ==> keys[j] in classes
    requires Tallied(cm, actual, predicted, |actual|, classes)
    ensures keys[i] in cm && forall j :: 0 <= j < |keys| ==> keys[j] in cm[keys[i]]
    ensures |Confusion(actual, predicted)| == |keys|
    ensures Row(cm, keys, keys[i]) == Confusion(actual, predicted)[i]
  {
    var m := Confusion(actual, predicted);
    var row := Row(cm, keys, keys[i]);
    assert |row| == |m[i]|;
    forall j | 0 <= j < |keys|
      ensures row[j] == m[i][j]
    {
      assert row[j] == cm[keys[i]][keys[j]];
    }
  }

  /** The counting loop of make_confusion: one increment of cm[actual[t]][predicted[t]] per position. */
  method TallyPairs(actual: seq<int>, predicted: seq<int>, classes: set<int>) returns (cm: map<int, map<int, int>>)
    requires |actual| == |predicted|
    requires forall i :: 0 <= i < |actual| ==> actual[i] in classes && predicted[i] in classes
    ensures Tallied(cm, actual, predicted, |actual|, classes)
  {
    cm := Zeros(classes);
    for t := 0 to |actual|
      invariant Tallied(cm, actual, predicted, t, classes)
    {
      TallyStep(cm, actual, predicted, classes, t);
      cm := Increment(cm, actual[t], predicted[t]);
    }
  }

  /** {a: {p: 0 for p in classes} for a in classes} */
  function Zeros(classes: set<int>): (cm: map<int, map<int, int>>)
    ensures cm.Keys == classes
    ensures forall a :: a in classes ==> cm[a].Keys == classes && forall p :: p in classes ==> cm[a][p] == 0
  {
    map c | c in classes :: map cc | cc in classes :: 0
  }

  /** The statement cm[a][p] += 1 on the nested dictionary. */
  function Increment(cm: map<int, map<int, int>>, a: int, p: int): (r: map<int, map<int, int>>)
    requires a in cm && p in cm[a]
    ensures r.Keys == cm.Keys
    ensures forall x :: x in cm ==> r[x].Keys == cm[x].Keys
    ensures forall x, y :: x in cm && y in cm[x] ==>
      r[x][y] == cm[x][y] + (if x == a && y == p then 1 else 0)
  {
    cm[a := cm[a][p := cm[a][p] + 1]]
  }

  /** The nested dictionary holds, for every pair of classes, the pair count of the first t positions. */
  ghost predicate Tallied(cm: map<int, map<int, int>>, actual: seq<int>, predicted: seq<int>, t: nat, classes: set<int>)
    requires |actual| == |predicted| && t <= |actual|
  {
    && cm.Keys == classes
    && (forall a :: a in classes ==> cm[a].Keys == classes)
    && (forall a, p :: a in classes && p in classes ==> cm[a][p] == PairCount(actual, predicted, t, a, p))
  }

  lemma TallyStep(cm: map<int, map<int, int>>, actual: seq<int>, predicted: seq<int>, classes: set<int>, t: nat)
    requires |actual| == |predicted| && t < |actual|
    requires actual[t] in classes && predicted[t] in classes
    requires Tallied(cm, actual, predicted, t, classes)
    ensures actual[t] in cm && predicted[t] in cm[actual[t]]
    ensures Tallied(Increment(cm, actual[t], predicted[t]), actual, predicted, t + 1, classes)
  {
    var cm' := Increment(cm, actual[t], predicted[t]);
    forall x, y | x in classes && y in classes
      ensures cm'[x][y] == PairCount(actual, predicted, t + 1, x, y)
    {
      TallyCell(cm, actual, predicted, t, x, y);
    }
  }

  /** One cell across one increment: it gains one exactly when position t is the pair (x, y). */
  lemma TallyCell(cm: map<int, map<int, int>>, actual: seq<int>, predicted: seq<int>, t: nat, x: int, y: int)
    requires |actual| == |predicted| && t < |actual|
    requires actual[t] in cm && predicted[t] in cm[actual[t]]
    requires x in cm && y in cm[x] && cm[x][y] == PairCount(actual, predicted, t, x, y)
    ensures x in Increment(cm, actual[t], predicted[t]) && y in Increment(cm, actual[t], predicted[t])[x]
    ensures Increment(cm, actual[t], predicted[t])[x][y] == PairCount(actual, predicted, t + 1, x, y)
  {
  }

  /** The predicted labels at the positions below n whose actual label is a. */
  function PredictedFor(actual: seq<int>, predicted: seq<int>, n: nat, a: int): (ps: seq<int>)
    requires |actual| == |predicted| && n <= |actual|
    ensures forall k :: 0 <= k < |ps| ==> ps[k] in predicted
  {
    if n == 0 then []
    else PredictedFor(actual, predicted, n - 1, a) + (if actual[n - 1] == a then [predicted[n - 1]] else [])
  }

  lemma {:induction false} PairCountAsOccurrences(actual: seq<int>, predicted: seq<int>, n: nat, a: int, p: int)
    requires |actual| == |predicted| && n <= |actual|
    ensures PairCount(actual, predicted, n, a, p) == Occurrences(PredictedFor(actual, predicted, n, a), p)
    ensures |PredictedFor(actual, predicted, n, a)| == Occurrences(actual[..n], a)
  {
    if n > 0 {
      PairCountAsOccurrences(actual, predicted, n - 1, a, p);
      var ps := PredictedFor(actual, predicted, n - 1, a);
      assert actual[..n][..n - 1] == actual[..n - 1];
      if actual[n - 1] == a {
        assert (ps + [predicted[n - 1]])[..|ps|] == ps;
      } else {
        assert ps + [] == ps;
      }
    }
  }

  /** The labels of the positions below n where actual and predicted agree. */
  function Matches(actual: seq<int>, predicted: seq<int>, n: nat): (ms: seq<int>)
    requires |actual| == |predicted| && n <= |actual|
    ensures forall k :: 0 <= k < |ms| ==> ms[k] in actual
  {
    if n == 0 then []
    else Matches(actual, predicted, n - 1) + (if actual[n - 1] == predicted[n - 1] then [actual[n - 1]] else [])
  }

  /** One agreeing label per agreeing position. */
  lemma {:induction false} MatchesLength(actual: seq<int>, predicted: seq<int>, n: nat)
    requires |actual| == |predicted| && n <= |actual|
    ensures |Matches(actual, predicted, n)| == Correct(actual[..n], predicted[..n])
  {
    if n > 0 {
      MatchesLength(actual, predicted, n - 1);
      assert actual[..n][..n - 1] == actual[..n - 1];
      assert predicted[..n][..n - 1] == predicted[..n - 1];
    }
  }

  /** Label a agrees at as many positions as the diagonal pair (a, a) counts. */
  lemma {:induction false} MatchesOccurrences(actual: seq<int>, predicted: seq<int>, n: nat, a: int)
    requires |actual| == |predicted| && n <= |actual|
    ensures Occurrences(Matches(actual, predicted, n), a) == PairCount(actual, predicted, n, a, a)
  {
    if n > 0 {
      MatchesOccurrences(actual, predicted, n - 1, a);
      var ms := Matches(actual, predicted, n - 1);
      if actual[n - 1] == predicted[n - 1] {
        assert (ms + [actual[n - 1]])[..|ms|] == ms;
      } else {
        assert ms + [] == ms;
      }
    }
  }

  /** Sum of the diagonal of a square matrix. */
  function Trace(m: seq<seq<nat>>): nat
    requires forall i :: 0 <= i < |m| ==> |m[i]| == |m|
  {
    Sum(seq(|m|, i requires 0 <= i < |m| => m[i][i]))
  }

  /** Sum of all entries of a matrix, row by row. */
  function Total(m: seq<seq<nat>>): nat
  {
    Sum(seq(|m|, i requires 0 <= i < |m| => Sum(m[i])))
  }

  /** The matrix is k by k for the k distinct actual labels, in ascending label order. */
  lemma ConfusionShape(actual: seq<int>, predicted: seq<int>)
    requires |actual| == |predicted|
    ensures var m := Confusion(actual, predicted); var labels := Unique(actual);
      && |m| == |labels|
      && (forall i :: 0 <= i < |m| ==> |m[i]| == |labels|)
      && Ascending(labels)
      && (forall v :: v in labels <==> v in actual)
  {
  }

  /** The row of label labels[i] sums to the number of occurrences of that label. */
  lemma ConfusionRowSum(actual: seq<int>, predicted: seq<int>, i: nat)
    requires |actual| == |predicted|
    requires forall k :: 0 <= k < |predicted| ==> predicted[k] in actual
    requires i < |Unique(actual)|
    ensures Sum(Confusion(actual, predicted)[i]) == Occurrences(actual, Unique(actual)[i])
  {
    var labels := Unique(actual);
    var a := labels[i];
    var n := |actual|;
    var ps := PredictedFor(actual, predicted, n, a);
    var row := Confusion(actual, predicted)[i];
    forall j | 0 <= j < |labels|
      ensures row[j] == Occurrences(ps, labels[j])
    {
      PairCountAsOccurrences(actual, predicted, n, a, labels[j]);
    }
    assert row == seq(|labels|, j requires 0 <= j < |labels| => Occurrences(ps, labels[j]));
    SumOfOccurrenceRow(ps, labels);
    AscendingIsDistinct(labels);
    SumOccurrencesCovers(ps, labels);
    PairCountAsOccurrences(actual, predicted, n, a, a);
    assert actual[..n] == actual;
  }

  /** All entries together count every position once. */
  lemma ConfusionTotal(actual: seq<int>, predicted: seq<int>)
    requires |actual| == |predicted|
    requires forall k :: 0 <= k < |predicted| ==> predicted[k] in actual
    ensures Total(Confusion(actual, predicted)) == |actual|
  {
    var labels := Unique(actual);
    var m := Confusion(actual, predicted);
    forall i | 0 <= i < |m|
      ensures Sum(m[i]) == Occurrences(actual, labels[i])
    {
      ConfusionRowSum(actual, predicted, i);
    }
    assert seq(|m|, i requires 0 <= i < |m| => Sum(m[i]))
        == seq(|labels|, j requires 0 <= j < |labels| => Occurrences(actual, labels[j]));
    SumOfOccurrenceRow(actual, labels);
    AscendingIsDistinct(labels);
    SumOccurrencesCovers(actual, labels);
  }

  /** The diagonal counts the agreeing positions: the numerator of Accuracy. */
  lemma ConfusionTrace(actual: seq<int>, predicted: seq<int>)
    requires |actual| == |predicted|
    ensures Trace(Confusion(actual, predicted)) == Correct(actual, predicted)
  {
    var labels := Unique(actual);
    var m := Confusion(actual, predicted);
    var n := |actual|;
    var ms := Matches(actual, predicted, n);
    forall i | 0 <= i < |m|
      ensures m[i][i] == Occurrences(ms, labels[i])
    {
      MatchesOccurrences(actual, predicted, n, labels[i]);
    }
    assert seq(|m|, i requires 0 <= i < |m| => m[i][i])
        == seq(|labels|, j requires 0 <= j < |labels| => Occurrences(ms, labels[j]));
    SumOfOccurrenceRow(ms, labels);
    AscendingIsDistinct(labels);
    MatchesLength(actual, predicted, n);
    SumOccurrencesCovers(ms, labels);
    assert actual[..n] == actual && predicted[..n] == predicted;
  }
}
