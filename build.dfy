/**
 * DecisionTree._build_tree of 3/decision_tree.py: ID3 over a table whose
 * column 0 holds the class labels.
 */
module Builder {
  import opened Wrappers
  import opened Counting
  import opened SortedUnique
  import opened Counts
  import opened Table
  import opened Partitions
  import opened Gain
  import opened Trees

  /**
   * A leaf when the labels are pure or when no attribute has positive gain;
   * otherwise a node on the best attribute with one child per distinct value
   * of that column, in ascending value order, each built on the rows holding
   * that value.
   */
  function Build(data: seq<Row>, width: nat, log2: real -> real): Tree
    requires Rectangular(data, width) && |data| > 0
    decreases |data|, 2
  {
    var ys := Labels(data);
    var ns := BinCount(ys);
    if |Unique(ys)| <= 1 then Leaf(ns)
    else
      var best := Best(Gains(data, width, log2));
      if best.0 > 0.0 then
        PositiveBestSplits(data, width, log2);
        Node(ns, ArgMax(ns), Some(best.1), Branches(data, width, log2, Column(data, best.1)))
      else Leaf(ns)
  }

  /** {v: _build_tree(data[p]) for v, p in partition(col).items()}, in key order. */
  function Branches(data: seq<Row>, width: nat, log2: real -> real, col: seq<int>): (es: seq<Edge>)
    requires Rectangular(data, width) && |col| == |data|
    requires |Unique(col)| >= 2
    decreases |data|, 1
  {
    var u := Unique(col);
    seq(|u|, k requires 0 <= k < |u| => Edge(u[k], Subtree(data, width, log2, col, u[k])))
  }

  /** _build_tree(data[np.where(col == v)[0]]), the child for the value v. */
  function Subtree(data: seq<Row>, width: nat, log2: real -> real, col: seq<int>, v: int): Tree
    requires Rectangular(data, width) && |col| == |data|
    requires |Unique(col)| >= 2 && v in col
    decreases |data|, 0
  {
    var rows := IndicesOf(col, v);
    IndicesShrink(col, v);
    SelectRows(data, width, rows);
    assert rows != [] by {
      var i :| 0 <= i < |col| && col[i] == v;
      assert i in rows;
    }
    Build(Select(data, rows), width, log2)
  }

  /** The totals of the children's class counts, in child order. */
  function ChildTotals(t: Tree): (ts: seq<nat>)
    ensures |ts| == |t.children| && forall k :: 0 <= k < |t.children| ==> ts[k] == Sum(t.children[k].child.nsamples)
  {
    seq(|t.children|, k requires 0 <= k < |t.children| => Sum(t.children[k].child.nsamples))
  }

  /** The keys of a node's children, in child order. */
  function ChildKeys(t: Tree): (vs: seq<int>)
    ensures |vs| == |t.children| && forall k :: 0 <= k < |t.children| ==> vs[k] == t.children[k].value
  {
    seq(|t.children|, k requires 0 <= k < |t.children| => t.children[k].value)
  }

  /**
   * What a node of a built tree satisfies on its own: it has seen at least
   * one sample, its class is the first most frequent one, its children split
   * its samples without loss, and its children's keys are ascending.
   */
  predicate NodeConsistent(t: Tree)
  {
    && |t.nsamples| > 0
    && Sum(t.nsamples) > 0
    && t.cls == ArgMax(t.nsamples)
    && (t.children != [] ==> Sum(ChildTotals(t)) == Sum(t.nsamples) && Ascending(ChildKeys(t)))
  }

  /** Every node of the tree is NodeConsistent. */
  predicate Consistent(t: Tree)
    decreases t
  {
    NodeConsistent(t) && forall k :: 0 <= k < |t.children| ==> Consistent(t.children[k].child)
  }

  /** The root of Build counts the labels of all rows and splits exactly when the labels are mixed and the best gain is positive. */
  lemma BuildRoot(data: seq<Row>, width: nat, log2: real -> real)
    requires Rectangular(data, width) && |data| > 0
    ensures Build(data, width, log2).nsamples == BinCount(Labels(data))
    ensures Build(data, width, log2).cls == ArgMax(BinCount(Labels(data)))
    ensures Build(data, width, log2).children == [] <==>
      |Unique(Labels(data))| <= 1 || Best(Gains(data, width, log2)).0 <= 0.0
  {
    if |Unique(Labels(data))| > 1 && Best(Gains(data, width, log2)).0 > 0.0 {
      PositiveBestSplits(data, width, log2);
    }
  }

  /** Pure labels give a leaf: no children, height 0, one node. */
  lemma BuildPure(data: seq<Row>, width: nat, log2: real -> real)
    requires Rectangular(data, width) && |data| > 0
    requires |Unique(Labels(data))| <= 1
    ensures Build(data, width, log2).children == []
    ensures Height(Build(data, width, log2)) == 0 && NodeCount(Build(data, width, log2)) == 1
  {
  }

  /**
   * A node becomes internal only on positive gain, on the first best
   * attribute, and only when that column holds at least two values.
   */
  lemma BuildSplit(data: seq<Row>, width: nat, log2: real -> real)
    requires Rectangular(data, width) && |data| > 0
    requires Build(data, width, log2).children != []
    ensures Best(Gains(data, width, log2)).0 > 0.0
    ensures 1 <= Best(Gains(data, width, log2)).1 < width
    ensures |Unique(Column(data, Best(Gains(data, width, log2)).1))| >= 2
    ensures Build(data, width, log2).attr == Some(Best(Gains(data, width, log2)).1)
  {
    PositiveBestSplits(data, width, log2);
  }

  /**
   * The children of a split node: one per distinct value of the split
   * column in ascending order, each built on the rows holding that value.
   */
  lemma BuildChildren(data: seq<Row>, width: nat, log2: real -> real)
    requires Rectangular(data, width) && |data| > 0
    requires Build(data, width, log2).children != []
    ensures |Unique(Column(data, Best(Gains(data, width, log2)).1))| >= 2
    ensures ChildKeys(Build(data, width, log2)) == Unique(Column(data, Best(Gains(data, width, log2)).1))
    ensures forall k :: 0 <= k < |Build(data, width, log2).children| ==>
      Build(data, width, log2).children[k].value in Column(data, Best(Gains(data, width, log2)).1) &&
      Build(data, width, log2).children[k].child
        == Subtree(data, width, log2, Column(data, Best(Gains(data, width, log2)).1), Build(data, width, log2).children[k].value)
  {
    var col := SplitColumn(data, width, log2);
    BranchesShape(data, width, log2, col);
  }

  /** Branches has one edge per distinct value of col, in ascending order, to the subtree for that value. */
  lemma BranchesShape(data: seq<Row>, width: nat, log2: real -> real, col: seq<int>)
    requires Rectangular(data, width) && |col| == |data|
    requires |Unique(col)| >= 2
    ensures var es := Branches(data, width, log2, col);
      && ChildKeys(Node([], 0, None, es)) == Unique(col)
      && forall k :: 0 <= k < |es| ==> es[k].value in col && es[k].child == Subtree(data, width, log2, col, es[k].value)
  {
    var es := Branches(data, width, log2, col);
    var u := Unique(col);
    forall k | 0 <= k < |u|
      ensures es[k].value == u[k] && u[k] in col
    {
      assert u[k] in u;
    }
  }

  /** Every tree Build returns is Consistent and fits rows of the table's width. */
  lemma {:induction false} BuildConsistent(data: seq<Row>, width: nat, log2: real -> real)
    requires Rectangular(data, width) && |data| > 0
    ensures Consistent(Build(data, width, log2))
    ensures Fits(Build(data, width, log2), width)
    decreases |data|, 1
  {
    var t := Build(data, width, log2);
    BuildNode(data, width, log2);
    if t.children != [] {
      BuildChildren(data, width, log2);
      var col := Column(data, Best(Gains(data, width, log2)).1);
      forall k | 0 <= k < |t.children|
        ensures Consistent(t.children[k].child) && Fits(t.children[k].child, width)
      {
        SubtreeConsistent(data, width, log2, col, t.children[k].value);
      }
    }
  }

  lemma {:induction false} SubtreeConsistent(data: seq<Row>, width: nat, log2: real -> real, col: seq<int>, v: int)
    requires Rectangular(data, width) && |col| == |data|
    requires |Unique(col)| >= 2 && v in col
    ensures Consistent(Subtree(data, width, log2, col, v))
    ensures Fits(Subtree(data, width, log2, col, v), width)
    decreases |data|, 0
  {
    var rows := SubtreeRows(data, width, log2, col, v);
    IndicesShrink(col, v);
    BuildConsistent(Select(data, rows), width, log2);
  }

  /** The child for v is built on the rows holding v, and has seen exactly those. */
  lemma SubtreeRows(data: seq<Row>, width: nat, log2: real -> real, col: seq<int>, v: int) returns (rows: seq<int>)
    requires Rectangular(data, width) && |col| == |data|
    requires |Unique(col)| >= 2 && v in col
    ensures rows == IndicesOf(col, v) && |rows| > 0
    ensures Rectangular(Select(data, rows), width)
    ensures Subtree(data, width, log2, col, v) == Build(Select(data, rows), width, log2)
    ensures Sum(Subtree(data, width, log2, col, v).nsamples) == |rows|
  {
    rows := IndicesOf(col, v);
    SelectRows(data, width, rows);
    var i :| 0 <= i < |col| && col[i] == v;
    assert i in rows;
    BuildRoot(Select(data, rows), width, log2);
    BinCountSum(Labels(Select(data, rows)));
  }

  /** The root of a built tree is NodeConsistent, has seen every row, and names an attribute of the table. */
  lemma BuildNode(data: seq<Row>, width: nat, log2: real -> real)
    requires Rectangular(data, width) && |data| > 0
    ensures NodeConsistent(Build(data, width, log2))
    ensures Sum(Build(data, width, log2).nsamples) == |data|
    ensures Build(data, width, log2).children != [] ==> Build(data, width, log2).attr.Some? && Build(data, width, log2).attr.value < width
  {
    BinCountSum(Labels(data));
    BuildRoot(data, width, log2);
    if Build(data, width, log2).children != [] {
      BuildSplit(data, width, log2);
      BuildChildren(data, width, log2);
      BuildChildTotals(data, width, log2);
    }
  }

  /** The column a split node is built on, and its children. */
  lemma SplitColumn(data: seq<Row>, width: nat, log2: real -> real) returns (col: seq<int>)
    requires Rectangular(data, width) && |data| > 0
    requires Build(data, width, log2).children != []
    ensures col == Column(data, Best(Gains(data, width, log2)).1)
    ensures |col| == |data| && |Unique(col)| >= 2
    ensures Build(data, width, log2).children == Branches(data, width, log2, col)
  {
    PositiveBestSplits(data, width, log2);
    col := Column(data, Best(Gains(data, width, log2)).1);
  }

  /** The children of a split node have seen, together, every row of the node. */
  lemma BuildChildTotals(data: seq<Row>, width: nat, log2: real -> real)
    requires Rectangular(data, width) && |data| > 0
    requires Build(data, width, log2).children != []
    ensures Sum(ChildTotals(Build(data, width, log2))) == |data|
  {
    var col := SplitColumn(data, width, log2);
    var es := Branches(data, width, log2, col);
    var g := Partition(col);
    var u := Unique(col);
    forall k | 0 <= k < |es|
      ensures Sum(es[k].child.nsamples) == Sizes(g)[k]
    {
      assert u[k] in col;
      var rows := SubtreeRows(data, width, log2, col, u[k]);
    }
    assert ChildTotals(Build(data, width, log2)) == Sizes(g);
    PartitionSizes(col);
  }

  // ---------------------------------------------------------------------
  // Building and predicting: a training row never falls off the tree

  /**
   * _predict on a row the tree was built on walks down to a leaf, never
   * taking the missing-key fallback, and that leaf has seen the row's label.
   */
  lemma {:induction false} TrainingRowReachesLeaf(data: seq<Row>, width: nat, log2: real -> real, i: nat)
    requires Rectangular(data, width) && |data| > 0 && i < |data|
    ensures Fits(Build(data, width, log2), |data[i]|)
    ensures EndsAtSeenLeaf(Build(data, width, log2), data[i])
    decreases |data|
  {
    BuildConsistent(data, width, log2);
    BuildRoot(data, width, log2);
    if Build(data, width, log2).children == [] {
      var ys := Labels(data);
      assert ys[i] == data[i][0];
      OccurrencesBound(ys, ys[i]);
    } else {
      var kv, rows, j := ChildForRow(data, width, log2, i);
      TrainingRowReachesLeaf(Select(data, rows), width, log2, j);
      WalkDescends(Build(data, width, log2), data[i], kv);
    }
  }

  /**
   * At a split node, the edge keyed by a row's value of the split column
   * leads to the child built on the rows holding that value, the row among them.
   */
  lemma ChildForRow(data: seq<Row>, width: nat, log2: real -> real, i: nat) returns (kv: nat, rows: seq<int>, j: nat)
    requires Rectangular(data, width) && |data| > 0 && i < |data|
    requires Build(data, width, log2).children != []
    ensures Fits(Build(data, width, log2), |data[i]|)
    ensures FindKey(Build(data, width, log2).children, data[i][Build(data, width, log2).attr.value]) == Some(kv)
    ensures IndicesBelow(rows, |data|) && Rectangular(Select(data, rows), width) && 0 < |rows| < |data|
    ensures Build(data, width, log2).children[kv].child == Build(Select(data, rows), width, log2)
    ensures j < |rows| && Select(data, rows)[j] == data[i]
  {
    BuildConsistent(data, width, log2);
    var col;
    kv, col := EdgeForRow(data, width, log2, i);
    rows := SubtreeRows(data, width, log2, col, col[i]);
    IndicesShrink(col, col[i]);
    assert i in rows;
    j :| 0 <= j < |rows| && rows[j] == i;
  }

  /** At a split node, the edge keyed by a row's value of the split column leads to the subtree for that value. */
  lemma EdgeForRow(data: seq<Row>, width: nat, log2: real -> real, i: nat) returns (kv: nat, col: seq<int>)
    requires Rectangular(data, width) && |data| > 0 && i < |data|
    requires Build(data, width, log2).children != []
    ensures col == Column(data, Best(Gains(data, width, log2)).1) && |col| == |data| && |Unique(col)| >= 2
    ensures Build(data, width, log2).attr.Some? && Build(data, width, log2).attr.value < width
    ensures col[i] == data[i][Build(data, width, log2).attr.value]
    ensures FindKey(Build(data, width, log2).children, col[i]) == Some(kv)
    ensures kv < |Build(data, width, log2).children|
    ensures Build(data, width, log2).children[kv].child == Subtree(data, width, log2, col, col[i])
  {
    var t := Build(data, width, log2);
    BuildSplit(data, width, log2);
    BuildChildren(data, width, log2);
    col := Column(data, Best(Gains(data, width, log2)).1);
    var v := col[i];
    assert v in col;
    var u := Unique(col);
    assert v in u;
    var k :| 0 <= k < |u| && u[k] == v;
    assert t.children[k].value == v;
    kv := FindKey(t.children, v).value;
  }

  /** A training row that ends in a leaf of its own class only is predicted correctly. */
  lemma TrainingRowPredicted(data: seq<Row>, width: nat, log2: real -> real, i: nat)
    requires Rectangular(data, width) && |data| > 0 && i < |data|
    ensures Fits(Build(data, width, log2), |data[i]|)
    ensures ValidPath(Build(data, width, log2), Walk(Build(data, width, log2), data[i]))
    ensures var n := At(Build(data, width, log2), Walk(Build(data, width, log2), data[i]));
      (forall c :: 0 <= c < |n.nsamples| && c != data[i][0] ==> n.nsamples[c] == 0) ==>
        Predict(Build(data, width, log2), data[i]) == data[i][0]
  {
    TrainingRowReachesLeaf(data, width, log2, i);
    PredictWalk(Build(data, width, log2), data[i]);
  }
}
