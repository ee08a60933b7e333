/**
 * The DecisionTree class of 3/decision_tree.py: it holds the root of a
 * tree built from a table and answers the structural queries on it; prune
 * and _remove_node change the tree in place.
 */
module Classifier {
  import opened Wrappers
  import opened Counting
  import opened Table
  import opened Trees
  import opened Builder
  import opened Pruning
  import opened Traversal
  import Common

  /** [_predict(root, x) for x in data] */
  function Predictions(t: Tree, data: seq<Row>): (ps: seq<int>)
    requires forall i :: 0 <= i < |data| ==> Fits(t, |data[i]|)
    ensures |ps| == |data| && forall i :: 0 <= i < |data| ==> ps[i] == Predict(t, data[i])
  {
    seq(|data|, i requires 0 <= i < |data| => Predict(t, data[i]) as int)
  }

  /** The predictions agree with the labels position by position exactly when the tree predicts every row's label. */
  lemma PerfectPredictions(t: Tree, data: seq<Row>)
    requires forall i :: 0 <= i < |data| ==> |data[i]| >= 1 && Fits(t, |data[i]|)
    ensures (forall i :: 0 <= i < |Column(data, 0)| ==> Column(data, 0)[i] == Predictions(t, data)[i])
      <==> forall i :: 0 <= i < |data| ==> Predict(t, data[i]) == data[i][0]
  {
    var ys := Column(data, 0);
    var ps := Predictions(t, data);
    assert forall i :: 0 <= i < |data| ==> ys[i] == data[i][0] && ps[i] == Predict(t, data[i]);
  }

  class DecisionTree {
    var root: Tree

    /** DecisionTree(data): the tree _build_tree returns, which is consistent and splits on columns of the table. */
    constructor (data: seq<Row>, width: nat, log2: real -> real)
      requires Rectangular(data, width) && |data| > 0
      ensures root == Build(data, width, log2)
      ensures Consistent(root) && Fits(root, width) && Prunable(root)
    {
      BuildConsistent(data, width, log2);
      ConsistentPrunable(Build(data, width, log2));
      root := Build(data, width, log2);
    }

    /** score: the fraction of rows whose label the tree predicts. */
    function Score(data: seq<Row>): (r: real)
      reads this
      requires |data| > 0
      requires forall i :: 0 <= i < |data| ==> |data[i]| >= 1 && Fits(root, |data[i]|)
      ensures r == Common.Accuracy(Column(data, 0), Predictions(root, data))
      ensures 0.0 <= r <= 1.0
      ensures r == 1.0 <==> forall i :: 0 <= i < |data| ==> Predict(root, data[i]) == data[i][0]
    {
      PerfectPredictions(root, data);
      Common.Accuracy(Column(data, 0), Predictions(root, data))
    }

    /** height: the longest root path has fewer edges than the tree has nodes. */
    function Height(): (h: nat)
      reads this
      ensures h < Trees.NodeCount(root)
      ensures root.children == [] ==> h == 0
    {
      HeightBelowCount(root);
      Trees.Height(root)
    }

    /** node_count: one per node, that is one per path to a node. */
    function NodeCount(): (n: nat)
      reads this
      ensures n >= 1
      ensures n == |AllPaths(root)|
      ensures root.children == [] ==> n == 1
    {
      AllPathsExact(root);
      Trees.NodeCount(root)
    }

    /**
     * nodes(): breadth-first from the root, each node once, each after its
     * parent and all its other ancestors, node_count of them; depth by depth,
     * and within a depth children in the order of their parents and then of
     * their positions.
     */
    method Nodes() returns (order: seq<Path>)
      ensures |order| == Trees.NodeCount(root)
      ensures order != [] && order[0] == []
      ensures Distinct(order)
      ensures forall p :: p in order <==> ValidPath(root, p)
      ensures forall j :: 0 <= j < |order| ==> PrefixesIn(order[j], order[..j])
      ensures LevelOrdered(order)
      ensures forall i, j :: 0 <= i < j < |order| ==> |order[i]| <= |order[j]|
    {
      var q: seq<Path> := [[]];
      order := [];
      BfsInit(root);
      while q != []
        invariant BfsInvariant(root, order, q)
        decreases Trees.NodeCount(root) - |order|
      {
        BfsStep(root, order, q);
        var node := q[0];
        q := q[1..];
        q := q + ChildPathsOf(node, |At(root, node).children|);
        order := order + [node];
      }
      assert order + q == order;
      CoverFromCount(root, order);
    }

    /**
     * prune: visit the nodes in reverse breadth-first order and cut a node
     * with children back to a leaf when its children's error rate exceeds
     * its own; the result is PruneSpec of the tree.
     */
    method Prune()
      requires Prunable(root)
      modifies this
      ensures root == PruneSpec(old(root))
      ensures Prunable(root)
      ensures forall w :: Fits(old(root), w) ==> Fits(root, w)
      ensures Consistent(old(root)) ==> Consistent(root)
    {
      var nodes := Nodes();
      ghost var original := root;
      ghost var visited: set<Path> := {};
      WhereNone(original, []);
      var i := |nodes|;
      while i > 0
        invariant 0 <= i <= |nodes|
        invariant forall y :: y in visited <==> y in nodes[i..]
        invariant root == PruneWhere(original, visited, [])
      {
        i := i - 1;
        var p := nodes[i];
        BackwardsUnvisited(nodes, i, visited);
        PruneStep(original, visited, p);
        var node := At(root, p);
        if node.children != [] {
          var nodeErrRate := NodeErrorRate(node);
          var childrenErrRate := ChildErrorRate(node);
          PruneCondCounts(node);
          if childrenErrRate > nodeErrRate {
            root := ReplaceAt(root, p, node.(children := []));
          }
        }
        visited := visited + {p};
      }
      forall y | ValidPath(original, y)
        ensures [] + y in visited
      {
        assert [] + y == y && y in nodes[0..];
      }
      WhereAll(original, visited, []);
      PruneSpecPreserves(original);
    }

    /**
     * _remove_node: the root cannot be removed; any other node is deleted
     * from its parent's children, and the parent is returned.
     */
    method RemoveNode(p: Path) returns (parent: Option<Path>)
      requires ValidPath(root, p)
      modifies this
      ensures p == [] ==> parent == None && root == old(root)
      ensures p != [] ==> parent == Some(Parent(p)) && root == RemoveAt(old(root), p)
      ensures Prunable(old(root)) ==> Prunable(root)
      ensures forall w :: Fits(old(root), w) ==> Fits(root, w)
    {
      if p == [] {
        return None;
      }
      if Prunable(root) {
        RemoveAtPrunable(root, p);
      }
      forall w | Fits(root, w)
        ensures Fits(RemoveAt(root, p), w)
      {
        RemoveAtFits(root, p, w);
      }
      root := RemoveAt(root, p);
      parent := Some(Parent(p));
    }
  }
}
