/**
 * The training table of the decision tree: a sequence of integer rows of one
 * width, whose column 0 is the class label and whose columns 1.. are the
 * attributes.
 */
module Table {
  type Row = seq<int>

  /** Every row has `width` columns, there is a label column, and labels are non-negative (np.bincount needs that). */
  predicate Rectangular(data: seq<Row>, width: nat)
  {
    && width >= 1
    && (forall i :: 0 <= i < |data| ==> |data[i]| == width)
    && (forall i :: 0 <= i < |data| ==> data[i][0] >= 0)
  }

  /** data[:, j] */
  function Column(data: seq<Row>, j: nat): (col: seq<int>)
    requires forall i :: 0 <= i < |data| ==> j < |data[i]|
    ensures |col| == |data| && forall i :: 0 <= i < |data| ==> col[i] == data[i][j]
  {
    seq(|data|, i requires 0 <= i < |data| => data[i][j])
  }

  /** data[:, 0], the class labels. */
  function Labels(data: seq<Row>): (ys: seq<nat>)
    requires forall i :: 0 <= i < |data| ==> |data[i]| >= 1 && data[i][0] >= 0
    ensures |ys| == |data| && forall i :: 0 <= i < |data| ==> ys[i] == data[i][0]
  {
    seq(|data|, i requires 0 <= i < |data| => data[i][0] as nat)
  }

  /** Every listed position lies in 0..n-1. */
  predicate IndicesBelow(idx: seq<int>, n: nat)
  {
    forall k :: 0 <= k < |idx| ==> 0 <= idx[k] < n
  }

  /** Fancy indexing s[idx]: the elements at the listed positions, in the listed order. */
  function Select<T>(s: seq<T>, idx: seq<int>): (r: seq<T>)
    requires IndicesBelow(idx, |s|)
    ensures |r| == |idx| && forall k :: 0 <= k < |idx| ==> r[k] == s[idx[k]]
  {
    seq(|idx|, k requires 0 <= k < |idx| => s[idx[k]])
  }

  /** Selecting rows keeps the table rectangular, and labels and columns commute with selection. */
  lemma SelectRows(data: seq<Row>, width: nat, idx: seq<int>)
    requires Rectangular(data, width)
    requires forall k :: 0 <= k < |idx| ==> 0 <= idx[k] < |data|
    ensures Rectangular(Select(data, idx), width)
    ensures Labels(Select(data, idx)) == Select(Labels(data), idx)
    ensures forall j :: 0 <= j < width ==> Column(Select(data, idx), j) == Select(Column(data, j), idx)
  {
  }
}
