/**
 * The tree of 3/decision_tree.py as a value. A Node holds the per-class
 * sample counts, the majority class, the split attribute (None on nodes
 * built as leaves) and its children, an association list from attribute
 * value to child kept in insertion order as the Python dictionary is.
 * A node is identified by its path: the positions of the edges taken from
 * the root; the parent of a node is the path without its last step.
 */
module Trees {
  import opened Wrappers
  import opened Counting
  import opened Counts
  import opened Table

  datatype Tree = Node(nsamples: seq<nat>, cls: nat, attr: Option<nat>, children: seq<Edge>)
  datatype Edge = Edge(value: int, child: Tree)

  type Path = seq<nat>

  /** Node(parent, nsamples): no split attribute, no children, cls = nsamples.argmax(). */
  function Leaf(ns: seq<nat>): (t: Tree)
    requires |ns| > 0
    ensures t.children == [] && t.nsamples == ns && t.attr == None
    ensures t.cls == ArgMax(ns)
    ensures t.cls < |ns| && forall c :: 0 <= c < |ns| ==> ns[c] <= ns[t.cls]
    ensures forall c :: 0 <= c < t.cls ==> ns[c] < ns[t.cls]
  {
    Node(ns, ArgMax(ns), None, [])
  }

  /** Every node that has children names an attribute that a row of `width` columns has. */
  predicate Fits(t: Tree, width: nat)
    decreases t
  {
    && (t.children != [] ==> t.attr.Some? && t.attr.value < width)
    && forall k :: 0 <= k < |t.children| ==> Fits(t.children[k].child, width)
  }

  /** dtree.children.get(v): the position of the first entry keyed v, if any. */
  function FindKey(es: seq<Edge>, v: int): (r: Option<nat>)
    ensures r.None? <==> forall k :: 0 <= k < |es| ==> es[k].value != v
    ensures r.Some? ==> r.value < |es| && es[r.value].value == v
    ensures r.Some? ==> forall k :: 0 <= k < r.value ==> es[k].value != v
  {
    if es == [] then None
    else if es[0].value == v then Some(0)
    else match FindKey(es[1..], v)
      case None => None
      case Some(k) => Some(k + 1)
  }

  /**
   * DecisionTree._predict: follow the edge keyed by the row's value of the
   * node's attribute; stop with the node's majority class at a leaf or when
   * no edge carries that value.
   */
  function Predict(t: Tree, x: Row): nat
    requires Fits(t, |x|)
    decreases t
  {
    if t.children == [] then t.cls
    else match FindKey(t.children, x[t.attr.value])
      case None => t.cls
      case Some(k) => Predict(t.children[k].child, x)
  }

  /** The path _predict takes from the root. */
  function Walk(t: Tree, x: Row): (p: Path)
    requires Fits(t, |x|)
    decreases t
  {
    if t.children == [] then []
    else match FindKey(t.children, x[t.attr.value])
      case None => []
      case Some(k) => [k] + Walk(t.children[k].child, x)
  }

  /** A path whose every step names an existing edge. */
  predicate ValidPath(t: Tree, p: Path)
    decreases p
  {
    p == [] || (p[0] < |t.children| && ValidPath(t.children[p[0]].child, p[1..]))
  }

  /** The subtree at a path. */
  function At(t: Tree, p: Path): Tree
    requires ValidPath(t, p)
    decreases p
  {
    if p == [] then t else At(t.children[p[0]].child, p[1..])
  }

  /** The tree with the subtree at path p replaced by s. */
  function ReplaceAt(t: Tree, p: Path, s: Tree): (r: Tree)
    requires ValidPath(t, p)
    decreases p
  {
    if p == [] then s
    else
      var e := t.children[p[0]];
      t.(children := t.children[p[0] := Edge(e.value, ReplaceAt(e.child, p[1..], s))])
  }

  /** The path of the parent node. */
  function Parent(p: Path): Path
    requires p != []
  {
    p[..|p| - 1]
  }

  /** The tree with the entry for the node at p deleted from its parent's children. */
  function RemoveAt(t: Tree, p: Path): Tree
    requires p != [] && ValidPath(t, p)
  {
    ValidPrefix(t, p, |p| - 1);
    var parent := At(t, Parent(p));
    var k := p[|p| - 1];
    assert Parent(p) + [k] == p;
    AtExtend(t, Parent(p), k);
    ReplaceAt(t, Parent(p), parent.(children := parent.children[..k] + parent.children[k + 1..]))
  }

  /** DecisionTree._height */
  function Height(t: Tree): nat
    decreases t, 1
  {
    if t.children == [] then 0 else 1 + Max(ChildHeights(t))
  }

  function ChildHeights(t: Tree): (hs: seq<nat>)
    decreases t, 0
    ensures |hs| == |t.children| && forall k :: 0 <= k < |t.children| ==> hs[k] == Height(t.children[k].child)
  {
    seq(|t.children|, k requires 0 <= k < |t.children| => Height(t.children[k].child))
  }

  /** DecisionTree._node_count */
  function NodeCount(t: Tree): (n: nat)
    decreases t, 1
    ensures n >= 1
  {
    if t.children == [] then 1 else 1 + Sum(ChildCounts(t))
  }

  function ChildCounts(t: Tree): (ns: seq<nat>)
    decreases t, 0
    ensures |ns| == |t.children| && forall k :: 0 <= k < |t.children| ==> ns[k] == NodeCount(t.children[k].child)
  {
    seq(|t.children|, k requires 0 <= k < |t.children| => NodeCount(t.children[k].child))
  }

  /** Every path of the tree, the root's first, in depth-first order (a reference enumeration). */
  function AllPaths(t: Tree): seq<Path>
    decreases t, 1
  {
    [[]] + ChildPaths(t, 0)
  }

  function ChildPaths(t: Tree, k: nat): seq<Path>
    decreases t, 0, |t.children| - k
  {
    if k >= |t.children| then []
    else
      var sub := AllPaths(t.children[k].child);
      seq(|sub|, i requires 0 <= i < |sub| => [k] + sub[i]) + ChildPaths(t, k + 1)
  }

  // ---------------------------------------------------------------------
  // Paths

  lemma {:induction false} ValidPrefix(t: Tree, p: Path, i: nat)
    requires ValidPath(t, p) && i <= |p|
    ensures ValidPath(t, p[..i])
    decreases p
  {
    if i > 0 {
      assert p[..i][1..] == p[1..][..i - 1];
      ValidPrefix(t.children[p[0]].child, p[1..], i - 1);
    }
  }

  /** Extending a valid path by one edge of the node it reaches. */
  lemma {:induction false} AtExtend(t: Tree, p: Path, k: nat)
    requires ValidPath(t, p)
    ensures ValidPath(t, p + [k]) <==> k < |At(t, p).children|
    ensures k < |At(t, p).children| ==> At(t, p + [k]) == At(t, p).children[k].child
    decreases p
  {
    if p == [] {
      assert [] + [k] == [k];
      assert [k][1..] == [];
    } else {
      assert (p + [k])[1..] == p[1..] + [k];
      AtExtend(t.children[p[0]].child, p[1..], k);
    }
  }

  /** The subtree at a replaced path is the replacement. */
  lemma {:induction false} AtReplaceAt(t: Tree, p: Path, s: Tree)
    requires ValidPath(t, p)
    ensures ValidPath(ReplaceAt(t, p, s), p) && At(ReplaceAt(t, p, s), p) == s
    decreases p
  {
    if p != [] {
      AtReplaceAt(t.children[p[0]].child, p[1..], s);
    }
  }

  /** Replacing the subtree at p leaves every node off the line through p as it was. */
  lemma {:induction false} ReplaceAtElsewhere(t: Tree, p: Path, s: Tree, q: Path)
    requires ValidPath(t, p) && ValidPath(t, q)
    requires !(q <= p) && !(p <= q)
    ensures ValidPath(ReplaceAt(t, p, s), q) && At(ReplaceAt(t, p, s), q) == At(t, q)
    decreases p
  {
    var r := ReplaceAt(t, p, s);
    assert r.children[q[0]].child == if q[0] == p[0] then ReplaceAt(t.children[p[0]].child, p[1..], s) else t.children[q[0]].child;
    if q[0] == p[0] {
      assert q == [q[0]] + q[1..] && p == [p[0]] + p[1..];
      ReplaceAtElsewhere(t.children[p[0]].child, p[1..], s, q[1..]);
    }
  }

  /** Replacing the subtree at p keeps the fields and the keys of every proper ancestor of p. */
  lemma {:induction false} ReplaceAtAbove(t: Tree, p: Path, s: Tree, q: Path)
    requires ValidPath(t, p) && q < p
    ensures ValidPath(t, q) && ValidPath(ReplaceAt(t, p, s), q)
    ensures var a := At(ReplaceAt(t, p, s), q); var b := At(t, q);
      && a.nsamples == b.nsamples && a.cls == b.cls && a.attr == b.attr
      && |a.children| == |b.children|
      && forall k :: 0 <= k < |a.children| ==> a.children[k].value == b.children[k].value
    decreases q
  {
    if q != [] {
      assert q[1..] < p[1..];
      ReplaceAtAbove(t.children[p[0]].child, p[1..], s, q[1..]);
    }
  }

  /** Replacing a subtree changes the node count by the difference in sizes. */
  lemma {:induction false} ReplaceAtCount(t: Tree, p: Path, s: Tree)
    requires ValidPath(t, p)
    ensures NodeCount(ReplaceAt(t, p, s)) + NodeCount(At(t, p)) == NodeCount(t) + NodeCount(s)
    decreases p
  {
    if p != [] {
      var k := p[0];
      var e := t.children[k];
      ReplaceAtCount(e.child, p[1..], s);
      var r := ReplaceAt(t, p, s);
      assert ChildCounts(r) == ChildCounts(t)[k := NodeCount(ReplaceAt(e.child, p[1..], s))];
      SumUpdate(ChildCounts(t), k, NodeCount(ReplaceAt(e.child, p[1..], s)));
    }
  }

  /** Putting back the subtree found at a path gives the same tree. */
  lemma {:induction false} ReplaceAtSelf(t: Tree, p: Path)
    requires ValidPath(t, p)
    ensures ReplaceAt(t, p, At(t, p)) == t
    decreases p
  {
    if p != [] {
      var e := t.children[p[0]];
      ReplaceAtSelf(e.child, p[1..]);
      assert t.children[p[0] := Edge(e.value, e.child)] == t.children;
    }
  }

  /**
   * _remove_node on a node other than the root: the parent keeps its path,
   * its fields and its other entries in order, and loses exactly the entry
   * for the node, together with the node's whole subtree.
   */
  lemma RemoveAtParent(t: Tree, p: Path)
    requires p != [] && ValidPath(t, p)
    ensures ValidPath(t, Parent(p)) && p[|p| - 1] < |At(t, Parent(p)).children|
    ensures ValidPath(RemoveAt(t, p), Parent(p))
    ensures var parent := At(t, Parent(p)); var k := p[|p| - 1];
      At(RemoveAt(t, p), Parent(p)) == parent.(children := parent.children[..k] + parent.children[k + 1..])
    ensures NodeCount(RemoveAt(t, p)) == NodeCount(t) - NodeCount(At(t, p))
  {
    ValidPrefix(t, p, |p| - 1);
    var parent := At(t, Parent(p));
    var k := p[|p| - 1];
    assert Parent(p) + [k] == p;
    AtExtend(t, Parent(p), k);
    var cut := parent.(children := parent.children[..k] + parent.children[k + 1..]);
    AtReplaceAt(t, Parent(p), cut);
    ReplaceAtCount(t, Parent(p), cut);
    CutCount(parent, k);
  }

  /** Deleting the k-th child entry removes that child's nodes from the count. */
  lemma CutCount(t: Tree, k: nat)
    requires k < |t.children|
    ensures NodeCount(t.(children := t.children[..k] + t.children[k + 1..])) == NodeCount(t) - NodeCount(t.children[k].child)
  {
    var cut := t.(children := t.children[..k] + t.children[k + 1..]);
    var cs := ChildCounts(t);
    assert ChildCounts(cut) == cs[..k] + cs[k + 1..];
    SumRemove(cs, k);
  }

  /** AllPaths lists exactly the valid paths, node_count of them. */
  lemma AllPathsExact(t: Tree)
    ensures forall p :: p in AllPaths(t) <==> ValidPath(t, p)
    ensures |AllPaths(t)| == NodeCount(t)
  {
    AllPathsMembers(t);
    AllPathsCount(t);
  }

  lemma {:induction false} AllPathsMembers(t: Tree)
    ensures forall p :: p in AllPaths(t) <==> ValidPath(t, p)
    decreases t, 1
  {
    ChildPathsMembers(t, 0);
  }

  lemma {:induction false} ChildPathsMembers(t: Tree, k: nat)
    ensures forall p :: p in ChildPaths(t, k) <==> p != [] && k <= p[0] && ValidPath(t, p)
    decreases t, 0, |t.children| - k
  {
    if k < |t.children| {
      var sub := AllPaths(t.children[k].child);
      var front := seq(|sub|, i requires 0 <= i < |sub| => [k] + sub[i]);
      AllPathsMembers(t.children[k].child);
      ChildPathsMembers(t, k + 1);
      PrefixedPaths(t, k, sub);
      assert ChildPaths(t, k) == front + ChildPaths(t, k + 1);
      assert forall p :: p in ChildPaths(t, k) <==> p in front || p in ChildPaths(t, k + 1);
    }
  }

  lemma {:induction false} AllPathsCount(t: Tree)
    ensures |AllPaths(t)| == NodeCount(t)
    decreases t, 1
  {
    ChildPathsLength(t, 0);
    assert ChildCounts(t)[0..] == ChildCounts(t);
    assert t.children == [] ==> ChildCounts(t) == [];
  }

  lemma {:induction false} ChildPathsLength(t: Tree, k: nat)
    ensures |ChildPaths(t, k)| == if k < |t.children| then Sum(ChildCounts(t)[k..]) else 0
    decreases t, 0, |t.children| - k
  {
    if k < |t.children| {
      AllPathsCount(t.children[k].child);
      ChildPathsLength(t, k + 1);
      var cs := ChildCounts(t);
      assert cs[k..][1..] == cs[k + 1..];
    }
  }

  /** The paths of the k-th child's subtree, each prefixed with k, are the valid paths of t that start with k. */
  lemma PrefixedPaths(t: Tree, k: nat, sub: seq<Path>)
    requires k < |t.children|
    requires forall p :: p in sub <==> ValidPath(t.children[k].child, p)
    ensures forall p :: p in seq(|sub|, i requires 0 <= i < |sub| => [k] + sub[i]) <==> p != [] && p[0] == k && ValidPath(t, p)
  {
    var front := seq(|sub|, i requires 0 <= i < |sub| => [k] + sub[i]);
    forall p
      ensures p in front <==> p != [] && p[0] == k && ValidPath(t, p)
    {
      if p in front {
        var i :| 0 <= i < |sub| && front[i] == p;
        assert p[1..] == sub[i];
      }
      if p != [] && p[0] == k && ValidPath(t, p) {
        assert p == [k] + p[1..];
        assert p[1..] in sub;
        var i :| 0 <= i < |sub| && sub[i] == p[1..];
        assert front[i] == p;
      }
    }
  }

  // ---------------------------------------------------------------------
  // Properties of the structural queries

  /** _predict returns the class of the node where its walk ends: a leaf, or a node without an edge for the row's value. */
  lemma {:induction false} PredictWalk(t: Tree, x: Row)
    requires Fits(t, |x|)
    ensures ValidPath(t, Walk(t, x))
    ensures Fits(At(t, Walk(t, x)), |x|)
    ensures Predict(t, x) == At(t, Walk(t, x)).cls
    ensures var n := At(t, Walk(t, x));
      n.children == [] || FindKey(n.children, x[n.attr.value]).None?
    decreases t
  {
    if t.children != [] {
      match FindKey(t.children, x[t.attr.value])
      case None =>
      case Some(k) =>
        PredictWalk(t.children[k].child, x);
    }
  }

  /**
   * _predict's walk on x ends at a leaf, whose class is the first arg-max of
   * its counts, and that leaf has seen the class label x[0].
   */
  predicate EndsAtSeenLeaf(t: Tree, x: Row)
    requires Fits(t, |x|) && |x| >= 1 && x[0] >= 0
  {
    var w := Walk(t, x);
    && ValidPath(t, w)
    && At(t, w).children == []
    && |At(t, w).nsamples| > 0
    && At(t, w).cls == ArgMax(At(t, w).nsamples)
    && x[0] < |At(t, w).nsamples|
    && At(t, w).nsamples[x[0]] > 0
  }

  /** If the walk from the child on x's edge ends at a leaf that saw x's label, so does the walk from the node. */
  lemma WalkDescends(t: Tree, x: Row, k: nat)
    requires Fits(t, |x|) && |x| >= 1 && x[0] >= 0
    requires t.children != [] && FindKey(t.children, x[t.attr.value]) == Some(k)
    requires EndsAtSeenLeaf(t.children[k].child, x)
    ensures EndsAtSeenLeaf(t, x)
  {
    var c := t.children[k].child;
    var w := Walk(t, x);
    assert w == [k] + Walk(c, x);
    assert w[1..] == Walk(c, x);
  }

  /** Each step of the walk takes the first edge keyed by the row's value at that node. */
  lemma {:induction false} WalkFollowsKeys(t: Tree, x: Row, i: nat)
    requires Fits(t, |x|)
    requires i < |Walk(t, x)|
    ensures ValidPath(t, Walk(t, x)[..i])
    ensures Fits(At(t, Walk(t, x)[..i]), |x|)
    ensures var n := At(t, Walk(t, x)[..i]);
      n.children != [] && FindKey(n.children, x[n.attr.value]) == Some(Walk(t, x)[i])
    decreases t
  {
    var w := Walk(t, x);
    var k := FindKey(t.children, x[t.attr.value]).value;
    if i > 0 {
      var c := t.children[k].child;
      WalkFollowsKeys(c, x, i - 1);
      assert w[..i] == [k] + Walk(c, x)[..i - 1];
      assert w[..i][1..] == Walk(c, x)[..i - 1];
    }
  }

  /** Every node of a tree that fits rows of a width fits them too. */
  lemma {:induction false} FitsAt(t: Tree, width: nat, p: Path)
    requires Fits(t, width) && ValidPath(t, p)
    ensures Fits(At(t, p), width)
    decreases p
  {
    if p != [] {
      FitsAt(t.children[p[0]].child, width, p[1..]);
    }
  }

  /** Overwriting a node with a tree that fits keeps the whole tree fitting. */
  lemma {:induction false} ReplaceAtFits(t: Tree, p: Path, s: Tree, width: nat)
    requires ValidPath(t, p) && Fits(t, width) && Fits(s, width)
    ensures Fits(ReplaceAt(t, p, s), width)
    decreases p
  {
    if p != [] {
      ReplaceAtFits(t.children[p[0]].child, p[1..], s, width);
    }
  }

  /** Deleting a child entry keeps the tree fitting rows of the same width. */
  lemma RemoveAtFits(t: Tree, p: Path, width: nat)
    requires p != [] && ValidPath(t, p) && Fits(t, width)
    ensures Fits(RemoveAt(t, p), width)
  {
    ValidPrefix(t, p, |p| - 1);
    FitsAt(t, width, Parent(p));
    var parent := At(t, Parent(p));
    var k := p[|p| - 1];
    assert Parent(p) + [k] == p;
    AtExtend(t, Parent(p), k);
    CutFits(parent, k, width);
    ReplaceAtFits(t, Parent(p), parent.(children := parent.children[..k] + parent.children[k + 1..]), width);
  }

  /** A fitting node with one child entry deleted still fits. */
  lemma CutFits(n: Tree, k: nat, width: nat)
    requires Fits(n, width) && k < |n.children|
    ensures Fits(n.(children := n.children[..k] + n.children[k + 1..]), width)
  {
    var cut := n.children[..k] + n.children[k + 1..];
    assert forall j :: 0 <= j < |cut| ==> cut[j] == n.children[if j < k then j else j + 1];
  }

  /** height < node_count: a tree of height h has a root path of h + 1 nodes. */
  lemma {:induction false} HeightBelowCount(t: Tree)
    ensures Height(t) < NodeCount(t)
    decreases t
  {
    if t.children != [] {
      var hs := ChildHeights(t);
      var cs := ChildCounts(t);
      forall k | 0 <= k < |hs|
        ensures hs[k] < cs[k]
      {
        HeightBelowCount(t.children[k].child);
      }
      var m :| 0 <= m < |hs| && hs[m] == Max(hs);
      ElementBelowSum(cs, m);
    }
  }

  /** A leaf has height 0 and one node. */
  lemma LeafSizes(t: Tree)
    requires t.children == []
    ensures Height(t) == 0 && NodeCount(t) == 1
  {
  }
}
