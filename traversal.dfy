/**
 * What DecisionTree.nodes of 3/decision_tree.py needs to be proved: the
 * queue of paths it drives, how many nodes still lie below the queue, and
 * the paths of a node's children that it appends.
 */
module Traversal {
  import opened Counting
  import opened Trees

  /** Every path of the queue names a node of t. */
  predicate AllValid(t: Tree, q: seq<Path>)
  {
    forall i :: 0 <= i < |q| ==> ValidPath(t, q[i])
  }

  /** The number of nodes in the subtrees rooted at the queue's paths. */
  function QueueCount(t: Tree, q: seq<Path>): nat
    requires AllValid(t, q)
  {
    if q == [] then 0 else NodeCount(At(t, q[0])) + QueueCount(t, q[1..])
  }

  /** The paths of the children of the node at x, in child order: q.extend(node.children.values()). */
  function ChildPathsOf(x: Path, n: nat): (ks: seq<Path>)
    ensures |ks| == n && forall k :: 0 <= k < n ==> ks[k] == x + [k]
  {
    seq(n, k requires 0 <= k < n => x + [k])
  }

  lemma {:induction false} QueueCountConcat(t: Tree, a: seq<Path>, b: seq<Path>)
    requires AllValid(t, a) && AllValid(t, b)
    ensures AllValid(t, a + b)
    ensures QueueCount(t, a + b) == QueueCount(t, a) + QueueCount(t, b)
  {
    if a == [] {
      assert a + b == b;
    } else {
      assert (a + b)[1..] == a[1..] + b;
      QueueCountConcat(t, a[1..], b);
    }
  }

  /** The children of a node are nodes of the tree. */
  lemma ChildPathsValid(t: Tree, x: Path)
    requires ValidPath(t, x)
    ensures AllValid(t, ChildPathsOf(x, |At(t, x).children|))
    ensures forall k :: 0 <= k < |At(t, x).children| ==> At(t, x + [k]) == At(t, x).children[k].child
  {
    forall k | 0 <= k < |At(t, x).children|
      ensures ValidPath(t, x + [k]) && At(t, x + [k]) == At(t, x).children[k].child
    {
      AtExtend(t, x, k);
    }
  }

  /** Replacing a node in the queue by its children removes exactly that node from the count. */
  lemma ChildPathsCount(t: Tree, x: Path)
    requires ValidPath(t, x)
    ensures AllValid(t, ChildPathsOf(x, |At(t, x).children|))
    ensures QueueCount(t, ChildPathsOf(x, |At(t, x).children|)) + 1 == NodeCount(At(t, x))
  {
    var n := At(t, x);
    ChildPathsValid(t, x);
    ChildPathsSuffix(t, x, 0);
    assert ChildCounts(n)[0..] == ChildCounts(n);
    assert ChildPathsOf(x, |n.children|)[0..] == ChildPathsOf(x, |n.children|);
  }

  lemma {:induction false} ChildPathsSuffix(t: Tree, x: Path, j: nat)
    requires ValidPath(t, x) && j <= |At(t, x).children|
    requires AllValid(t, ChildPathsOf(x, |At(t, x).children|))
    requires forall k :: 0 <= k < |At(t, x).children| ==> At(t, x + [k]) == At(t, x).children[k].child
    ensures AllValid(t, ChildPathsOf(x, |At(t, x).children|)[j..])
    ensures QueueCount(t, ChildPathsOf(x, |At(t, x).children|)[j..]) == Sum(ChildCounts(At(t, x))[j..])
    decreases |At(t, x).children| - j
  {
    var n := At(t, x);
    var ks := ChildPathsOf(x, |n.children|);
    if j < |n.children| {
      ChildPathsSuffix(t, x, j + 1);
      assert ks[j..][1..] == ks[j + 1..];
      assert ChildCounts(n)[j..][1..] == ChildCounts(n)[j + 1..];
    }
  }

  /** A path's prefixes of every length below its own are listed in `order`. */
  predicate PrefixesIn(p: Path, order: seq<Path>)
  {
    forall i :: 0 <= i < |p| ==> p[..i] in order
  }

  /** Among paths of one length, a comes first when at the first step where they differ a's step is smaller. */
  predicate LexBefore(a: Path, b: Path)
    decreases |a|
  {
    a != [] && b != [] && (a[0] < b[0] || (a[0] == b[0] && LexBefore(a[1..], b[1..])))
  }

  /** Breadth-first order: shallower nodes first, and nodes of one depth in the order of their steps from the root. */
  predicate LevelBefore(a: Path, b: Path)
  {
    |a| < |b| || (|a| == |b| && LexBefore(a, b))
  }

  predicate LevelOrdered(s: seq<Path>)
  {
    forall i, j :: 0 <= i < j < |s| ==> LevelBefore(s[i], s[j])
  }

  /** Children of nodes in lexicographic order are in lexicographic order. */
  lemma {:induction false} LexExtend(a: Path, b: Path, j: nat, k: nat)
    requires LexBefore(a, b)
    ensures LexBefore(a + [j], b + [k])
    decreases |a|
  {
    assert (a + [j])[1..] == a[1..] + [j];
    assert (b + [k])[1..] == b[1..] + [k];
    if a[0] == b[0] {
      LexExtend(a[1..], b[1..], j, k);
    }
  }

  /** The children of one node come in the order of their positions. */
  lemma {:induction false} LexSiblings(x: Path, k: nat, m: nat)
    requires k < m
    ensures LexBefore(x + [k], x + [m])
    decreases |x|
  {
    if x != [] {
      assert (x + [k])[1..] == x[1..] + [k];
      assert (x + [m])[1..] == x[1..] + [m];
      LexSiblings(x[1..], k, m);
    }
  }

  /**
   * The invariant of the loop in nodes(): `order` holds the nodes yielded so
   * far and q the deque; each path is a node of t; no path is listed twice;
   * every ancestor of a yielded node was yielded before it, and every
   * ancestor of a queued node has been yielded; the yielded nodes followed
   * by the queue are in breadth-first order, and the queue spans at most two
   * depths; the yielded nodes and the subtrees of the queued ones together
   * make up the tree.
   */
  predicate BfsInvariant(t: Tree, order: seq<Path>, q: seq<Path>)
  {
    && AllValid(t, order) && AllValid(t, q)
    && Distinct(order + q)
    && (order == [] ==> q == [[]])
    && (order != [] ==> order[0] == [])
    && (forall j :: 0 <= j < |order| ==> PrefixesIn(order[j], order[..j]))
    && (forall j :: 0 <= j < |q| ==> PrefixesIn(q[j], order))
    && LevelOrdered(order + q)
    && (forall j :: 0 <= j < |q| ==> |q[j]| <= |q[0]| + 1)
    && |order| + QueueCount(t, q) == NodeCount(t)
  }

  lemma BfsInit(t: Tree)
    ensures BfsInvariant(t, [], [[]])
  {
    var q: seq<Path> := [[]];
    assert q[1..] == [];
    assert At(t, []) == t;
  }

  /** One round of the loop: popleft, extend with the children, yield. */
  lemma BfsStep(t: Tree, order: seq<Path>, q: seq<Path>)
    requires BfsInvariant(t, order, q) && q != []
    ensures ValidPath(t, q[0])
    ensures BfsInvariant(t, order + [q[0]], q[1..] + ChildPathsOf(q[0], |At(t, q[0]).children|))
  {
    var x := q[0];
    var kids := ChildPathsOf(x, |At(t, x).children|);
    var order' := order + [x];
    var q' := q[1..] + kids;
    ChildPathsCount(t, x);
    assert AllValid(t, q[1..]);
    QueueCountConcat(t, q[1..], kids);
    assert AllValid(t, order');
    BfsStepDistinct(order, q, kids);
    BfsStepPrefixes(order, q, kids);
    BfsStepOrdered(order, q, kids);
  }

  /** Appending the children of the popped node keeps the list breadth-first and the queue within two depths. */
  lemma BfsStepOrdered(order: seq<Path>, q: seq<Path>, kids: seq<Path>)
    requires q != [] && LevelOrdered(order + q)
    requires forall j :: 0 <= j < |q| ==> |q[j]| <= |q[0]| + 1
    requires forall j :: 0 <= j < |q| ==> PrefixesIn(q[j], order)
    requires forall k :: 0 <= k < |kids| ==> kids[k] == q[0] + [k]
    ensures LevelOrdered((order + [q[0]]) + (q[1..] + kids))
    ensures var q' := q[1..] + kids; forall j :: 0 <= j < |q'| ==> |q'[j]| <= |q'[0]| + 1
  {
    var x := q[0];
    var s := order + q;
    assert (order + [x]) + (q[1..] + kids) == s + kids by {
      assert q == [x] + q[1..];
    }
    assert s[|order|] == x;
    forall i, k | 0 <= i < |s| && 0 <= k < |kids|
      ensures LevelBefore(s[i], kids[k])
    {
      var y := s[i];
      if i > |order| {
        assert y == q[i - |order|];
        if |y| == |x| + 1 {
          var parent := y[..|x|];
          assert parent in order;
          var m :| 0 <= m < |order| && order[m] == parent;
          assert s[m] == parent;
          LexExtend(parent, x, y[|x|], k);
          assert parent + [y[|x|]] == y;
        }
      }
    }
    forall k, m | 0 <= k < m < |kids|
      ensures LevelBefore(kids[k], kids[m])
    {
      LexSiblings(x, k, m);
    }
    var q' := q[1..] + kids;
    if |q| > 1 {
      assert q'[0] == q[1] && s[|order| + 1] == q[1];
    }
  }

  lemma BfsStepDistinct(order: seq<Path>, q: seq<Path>, kids: seq<Path>)
    requires q != [] && Distinct(order + q)
    requires forall j :: 0 <= j < |order| ==> PrefixesIn(order[j], order[..j])
    requires forall j :: 0 <= j < |q| ==> PrefixesIn(q[j], order)
    requires forall k :: 0 <= k < |kids| ==> kids[k] == q[0] + [k]
    ensures Distinct((order + [q[0]]) + (q[1..] + kids))
  {
    var x := q[0];
    var old' := order + q;
    assert (order + [x]) + (q[1..] + kids) == old' + kids by {
      assert q == [x] + q[1..];
    }
    forall i | 0 <= i < |order|
      ensures order[i] != x
    {
      assert old'[i] == order[i] && old'[|order|] == x;
    }
    forall i | 0 <= i < |old'|
      ensures PrefixesIn(old'[i], order)
    {
      if i < |order| {
        assert forall m :: 0 <= m < |order[i]| ==> order[i][..m] in order[..i] ==> order[i][..m] in order;
      } else {
        assert old'[i] == q[i - |order|];
      }
    }
    forall i, k | 0 <= i < |old'| && 0 <= k < |kids|
      ensures old'[i] != kids[k]
    {
      assert (x + [k])[..|x|] == x;
      assert |old'[i]| > |x| ==> old'[i][..|x|] in order;
    }
    forall k, m | 0 <= k < m < |kids|
      ensures kids[k] != kids[m]
    {
      assert kids[k][|x|] == k && kids[m][|x|] == m;
    }
    DistinctAppend(old', kids);
  }

  lemma DistinctAppend<T>(a: seq<T>, b: seq<T>)
    requires Distinct(a) && Distinct(b)
    requires forall i, k :: 0 <= i < |a| && 0 <= k < |b| ==> a[i] != b[k]
    ensures Distinct(a + b)
  {
  }

  lemma BfsStepPrefixes(order: seq<Path>, q: seq<Path>, kids: seq<Path>)
    requires q != []
    requires forall j :: 0 <= j < |order| ==> PrefixesIn(order[j], order[..j])
    requires forall j :: 0 <= j < |q| ==> PrefixesIn(q[j], order)
    requires forall k :: 0 <= k < |kids| ==> kids[k] == q[0] + [k]
    ensures var order' := order + [q[0]];
      forall j :: 0 <= j < |order'| ==> PrefixesIn(order'[j], order'[..j])
    ensures var order' := order + [q[0]]; var q' := q[1..] + kids;
      forall j :: 0 <= j < |q'| ==> PrefixesIn(q'[j], order')
  {
    var x := q[0];
    var order' := order + [x];
    forall j | 0 <= j < |order'|
      ensures PrefixesIn(order'[j], order'[..j])
    {
      if j < |order| {
        assert order'[..j] == order[..j];
      } else {
        assert order'[..j] == order;
      }
    }
    var q' := q[1..] + kids;
    forall j | 0 <= j < |q'|
      ensures PrefixesIn(q'[j], order')
    {
      if j < |q| - 1 {
        assert q'[j] == q[j + 1];
      } else {
        var k := j - (|q| - 1);
        assert q'[j] == x + [k];
        forall i | 0 <= i < |x + [k]|
          ensures (x + [k])[..i] in order'
        {
          if i < |x| {
            assert (x + [k])[..i] == x[..i];
          } else {
            assert (x + [k])[..i] == x;
          }
        }
      }
    }
  }

  /** A list of distinct nodes as long as the tree's node count lists every node. */
  lemma CoverFromCount(t: Tree, order: seq<Path>)
    requires AllValid(t, order) && Distinct(order) && |order| == NodeCount(t)
    ensures forall p :: p in order <==> ValidPath(t, p)
  {
    AllPathsExact(t);
    var listed := set p | p in order;
    var all := set p | p in AllPaths(t);
    assert listed <= all;
    DistinctCard(order);
    CardAtMost(AllPaths(t));
    SubsetOfEqualCard(listed, all);
    forall p | ValidPath(t, p)
      ensures p in order
    {
      assert p in all;
    }
  }

  /**
   * Walking a list in which every node's ancestors come before it from the
   * back: when the i-th entry comes up, neither it nor any of its ancestors
   * has been visited yet.
   */
  lemma BackwardsUnvisited(order: seq<Path>, i: nat, visited: set<Path>)
    requires i < |order| && Distinct(order)
    requires forall j :: 0 <= j < |order| ==> PrefixesIn(order[j], order[..j])
    requires forall y :: y in visited <==> y in order[i + 1..]
    ensures order[i] !in visited
    ensures forall k :: 0 <= k < |order[i]| ==> order[i][..k] !in visited
  {
    forall m | i + 1 <= m < |order|
      ensures order[m] != order[i]
    {
    }
    assert order[i] !in order[i + 1..];
    forall k | 0 <= k < |order[i]|
      ensures order[i][..k] !in visited
    {
      assert order[i][..k] in order[..i];
      var j :| 0 <= j < i && order[..i][j] == order[i][..k];
      forall m | i + 1 <= m < |order|
        ensures order[m] != order[j]
      {
      }
      assert order[i][..k] !in order[i + 1..];
    }
  }
}
