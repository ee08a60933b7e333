/**
 * DecisionTree.prune of 3/decision_tree.py, reduced-error pruning. Every
 * node that has children is visited once, deepest first; it becomes a leaf
 * when the error estimate of its children exceeds its own:
 *
 *   sum over children c of min(c.nsamples) / sum(nsamples)  >  min(nsamples) / sum(nsamples)
 *
 * The estimate of a node is min(nsamples), as the code has it, and not the
 * total minus the largest count; the division is exact here.
 *
 * PruneSpec states the result top-down. PruneWhere describes the tree part
 * way through the loop, once the nodes at the paths in a set have been
 * visited; the class method in classifier.dfy is proved against both.
 */
module Pruning {
  import opened Wrappers
  import opened Counting
  import opened Trees
  import opened Builder

  /**
   * The error rates are defined at every node that has children: it has
   * seen at least one sample and every child has class counts.
   */
  predicate Prunable(t: Tree)
    decreases t
  {
    && (t.children != [] ==> Ready(t))
    && forall k :: 0 <= k < |t.children| ==> Prunable(t.children[k].child)
  }

  /** What the two error rates of one node need. */
  predicate Ready(t: Tree)
  {
    Sum(t.nsamples) > 0 && forall k :: 0 <= k < |t.children| ==> |t.children[k].child.nsamples| > 0
  }

  /** min(child.nsamples) of each child, in child order. */
  function ChildMins(t: Tree): (ms: seq<nat>)
    requires forall k :: 0 <= k < |t.children| ==> |t.children[k].child.nsamples| > 0
    ensures |ms| == |t.children| && forall k :: 0 <= k < |t.children| ==> ms[k] == Min(t.children[k].child.nsamples)
  {
    seq(|t.children|, k requires 0 <= k < |t.children| => Min(t.children[k].child.nsamples))
  }

  /** sum(m / s for m in ms), added from the left. */
  function RateSum(ms: seq<nat>, s: real): real
    requires s > 0.0
  {
    if ms == [] then 0.0 else ms[0] as real / s + RateSum(ms[1..], s)
  }

  /** node_err_rate: min(nsamples) / sum(nsamples), the smallest count slot over the node's total. */
  function NodeErrorRate(t: Tree): real
    requires Ready(t)
  {
    Min(t.nsamples) as real / Sum(t.nsamples) as real
  }

  /** children_err_rate */
  function ChildErrorRate(t: Tree): real
    requires Ready(t)
  {
    RateSum(ChildMins(t), Sum(t.nsamples) as real)
  }

  /** "Creating children is increasing the error": the comparison of the two rates. */
  predicate ErrorIncreases(t: Tree)
    requires Ready(t)
  {
    ChildErrorRate(t) > NodeErrorRate(t)
  }

  /** The same decision on counts (PruneCondCounts): the children's minima together exceed the node's minimum. */
  predicate PruneCond(t: Tree)
    requires Ready(t)
  {
    Sum(ChildMins(t)) > Min(t.nsamples)
  }

  /** The tree prune leaves behind: a node is cut back to a leaf exactly when its own counts say so. */
  function PruneSpec(t: Tree): Tree
    requires Prunable(t)
    decreases t, 1
  {
    if t.children == [] then t
    else if PruneCond(t) then t.(children := [])
    else t.(children := PrunedEdges(t))
  }

  function PrunedEdges(t: Tree): (es: seq<Edge>)
    requires Prunable(t)
    decreases t, 0
    ensures |es| == |t.children|
    ensures forall k :: 0 <= k < |es| ==> es[k] == Edge(t.children[k].value, PruneSpec(t.children[k].child))
  {
    seq(|t.children|, k requires 0 <= k < |t.children| => Edge(t.children[k].value, PruneSpec(t.children[k].child)))
  }

  /**
   * The tree after the nodes whose paths are in `visited` have been
   * decided; `at` is the path of t in the whole tree.
   */
  function PruneWhere(t: Tree, visited: set<Path>, at: Path): Tree
    requires Prunable(t)
    decreases t, 1
  {
    if t.children == [] then t
    else if at in visited && PruneCond(t) then t.(children := [])
    else t.(children := WhereEdges(t, visited, at))
  }

  function WhereEdges(t: Tree, visited: set<Path>, at: Path): (es: seq<Edge>)
    requires Prunable(t)
    decreases t, 0
    ensures |es| == |t.children|
    ensures forall k :: 0 <= k < |es| ==> es[k] == Edge(t.children[k].value, PruneWhere(t.children[k].child, visited, at + [k]))
  {
    seq(|t.children|, k requires 0 <= k < |t.children| => Edge(t.children[k].value, PruneWhere(t.children[k].child, visited, at + [k])))
  }

  // ---------------------------------------------------------------------
  // The pruning condition on counts

  lemma AddFractions(a: real, b: real, s: real)
    requires s > 0.0
    ensures a / s + b / s == (a + b) / s
  {
  }

  /** The rates added up are the sum of the minima over the node's total. */
  lemma {:induction false} RateSumIsFraction(ms: seq<nat>, s: real)
    requires s > 0.0
    ensures RateSum(ms, s) == Sum(ms) as real / s
  {
    if ms != [] {
      RateSumIsFraction(ms[1..], s);
      AddFractions(ms[0] as real, Sum(ms[1..]) as real, s);
    }
  }

  lemma CompareFractions(a: real, b: real, s: real)
    requires s > 0.0
    ensures a / s > b / s <==> a > b
  {
    assert a / s * s == a && b / s * s == b;
  }

  /** With exact division, comparing the two rates is comparing the error counts over the node's total. */
  lemma PruneCondCounts(t: Tree)
    requires Ready(t)
    ensures ErrorIncreases(t) <==> Sum(ChildMins(t)) > Min(t.nsamples)
  {
    var s := Sum(t.nsamples) as real;
    RateSumIsFraction(ChildMins(t), s);
    CompareFractions(Sum(ChildMins(t)) as real, Min(t.nsamples) as real, s);
  }

  /** Every node of a built tree has what the pruning condition needs. */
  lemma {:induction false} ConsistentPrunable(t: Tree)
    requires Consistent(t)
    ensures Prunable(t)
    decreases t
  {
    forall k | 0 <= k < |t.children|
      ensures Prunable(t.children[k].child) && |t.children[k].child.nsamples| > 0
    {
      ConsistentPrunable(t.children[k].child);
    }
  }

  lemma {:induction false} PrunableAt(t: Tree, p: Path)
    requires Prunable(t) && ValidPath(t, p)
    ensures Prunable(At(t, p))
    decreases p
  {
    if p != [] {
      PrunableAt(t.children[p[0]].child, p[1..]);
    }
  }

  /** Overwriting a node with a prunable tree of the same counts keeps the whole tree prunable. */
  lemma {:induction false} ReplaceAtPrunable(t: Tree, p: Path, s: Tree)
    requires ValidPath(t, p) && Prunable(t) && Prunable(s)
    requires s.nsamples == At(t, p).nsamples
    ensures Prunable(ReplaceAt(t, p, s))
    ensures ReplaceAt(t, p, s).nsamples == t.nsamples
    decreases p
  {
    if p != [] {
      ReplaceAtPrunable(t.children[p[0]].child, p[1..], s);
    }
  }

  /** Deleting a child entry keeps the error rates defined at every internal node. */
  lemma RemoveAtPrunable(t: Tree, p: Path)
    requires p != [] && ValidPath(t, p) && Prunable(t)
    ensures Prunable(RemoveAt(t, p))
  {
    ValidPrefix(t, p, |p| - 1);
    PrunableAt(t, Parent(p));
    var parent := At(t, Parent(p));
    var k := p[|p| - 1];
    assert Parent(p) + [k] == p;
    AtExtend(t, Parent(p), k);
    CutPrunable(parent, k);
    ReplaceAtPrunable(t, Parent(p), parent.(children := parent.children[..k] + parent.children[k + 1..]));
  }

  /** A prunable node with one child entry deleted is still prunable. */
  lemma CutPrunable(n: Tree, k: nat)
    requires Prunable(n) && k < |n.children|
    ensures Prunable(n.(children := n.children[..k] + n.children[k + 1..]))
  {
    var cut := n.children[..k] + n.children[k + 1..];
    assert forall j :: 0 <= j < |cut| ==> cut[j] == n.children[if j < k then j else j + 1];
  }

  // ---------------------------------------------------------------------
  // What prune changes

  /** The node's own fields and its children's keys and counts survive: only the children list can be emptied. */
  lemma PruneSpecRoot(t: Tree)
    requires Prunable(t)
    ensures var r := PruneSpec(t);
      && r.nsamples == t.nsamples && r.cls == t.cls && r.attr == t.attr
      && (r.children == [] <==> t.children == [] || PruneCond(t))
      && (r.children != [] ==>
            && |r.children| == |t.children|
            && forall k :: 0 <= k < |r.children| ==>
                 r.children[k].value == t.children[k].value && r.children[k].child == PruneSpec(t.children[k].child))
  {
  }

  /**
   * Every node left after pruning was in the tree at the same path, with
   * the same counts, class and attribute; it lost its children exactly when
   * it was a leaf already or its own condition held.
   */
  lemma {:induction false} PruneSpecNodes(t: Tree, p: Path)
    requires Prunable(t) && ValidPath(PruneSpec(t), p)
    ensures ValidPath(t, p) && Prunable(At(t, p))
    ensures At(PruneSpec(t), p) == PruneSpec(At(t, p))
    ensures var n := At(t, p); var r := At(PruneSpec(t), p);
      && r.nsamples == n.nsamples && r.cls == n.cls && r.attr == n.attr
      && (r.children == [] <==> n.children == [] || PruneCond(n))
    decreases p
  {
    if p != [] {
      var r := PruneSpec(t);
      assert r.children != [];
      PruneSpecNodes(t.children[p[0]].child, p[1..]);
    }
    PrunableAt(t, p);
    PruneSpecRoot(At(t, p));
  }

  /** A node every one of whose ancestors stays internal is still in the pruned tree. */
  lemma {:induction false} PruneSpecKeeps(t: Tree, p: Path)
    requires Prunable(t) && ValidPath(t, p)
    requires forall i :: 0 <= i < |p| ==> ValidPath(t, p[..i]) && Ready(At(t, p[..i])) && !PruneCond(At(t, p[..i]))
    ensures ValidPath(PruneSpec(t), p)
    decreases p
  {
    if p != [] {
      assert p[..0] == [];
      var c := t.children[p[0]].child;
      forall i | 0 <= i < |p[1..]|
        ensures ValidPath(c, p[1..][..i]) && Ready(At(c, p[1..][..i])) && !PruneCond(At(c, p[1..][..i]))
      {
        assert p[..i + 1][1..] == p[1..][..i];
        assert p[..i + 1][0] == p[0];
        assert ValidPath(t, p[..i + 1]);
        assert At(t, p[..i + 1]) == At(c, p[1..][..i]);
      }
      PruneSpecKeeps(c, p[1..]);
    }
  }

  /** Pruning never adds nodes. */
  lemma {:induction false} PruneSpecCount(t: Tree)
    requires Prunable(t)
    ensures NodeCount(PruneSpec(t)) <= NodeCount(t)
    ensures Height(PruneSpec(t)) <= Height(t)
    decreases t
  {
    var r := PruneSpec(t);
    if r.children != [] {
      var cs := ChildCounts(t);
      var rs := ChildCounts(r);
      var hs := ChildHeights(t);
      var rh := ChildHeights(r);
      forall k | 0 <= k < |t.children|
        ensures rs[k] <= cs[k] && rh[k] <= hs[k]
      {
        PruneSpecCount(t.children[k].child);
      }
      SumBelow(rs, cs);
      var m :| 0 <= m < |rh| && rh[m] == Max(rh);
      assert rh[m] <= hs[m] <= Max(hs);
    }
  }

  lemma {:induction false} SumBelow(a: seq<nat>, b: seq<nat>)
    requires |a| == |b| && forall k :: 0 <= k < |a| ==> a[k] <= b[k]
    ensures Sum(a) <= Sum(b)
  {
    if a != [] {
      SumBelow(a[1..], b[1..]);
    }
  }

  /** The decisions read only nsamples, which prune never writes: pruning twice prunes nothing more. */
  lemma {:induction false} PruneSpecIdempotent(t: Tree)
    requires Prunable(t)
    ensures Prunable(PruneSpec(t))
    ensures PruneSpec(PruneSpec(t)) == PruneSpec(t)
    decreases t
  {
    var r := PruneSpec(t);
    if t.children != [] && !PruneCond(t) {
      forall k | 0 <= k < |t.children|
        ensures Prunable(r.children[k].child) && PruneSpec(r.children[k].child) == r.children[k].child
        ensures r.children[k].child.nsamples == t.children[k].child.nsamples
      {
        PruneSpecIdempotent(t.children[k].child);
        PruneSpecRoot(t.children[k].child);
      }
      assert ChildMins(r) == ChildMins(t);
      assert !PruneCond(r);
      assert PrunedEdges(r) == r.children;
    }
  }

  /** A pruned tree still fits rows of the width the original fits. */
  lemma {:induction false} PruneSpecFits(t: Tree, width: nat)
    requires Prunable(t) && Fits(t, width)
    ensures Fits(PruneSpec(t), width)
    decreases t
  {
    if t.children != [] && !PruneCond(t) {
      forall k | 0 <= k < |t.children|
        ensures Fits(PruneSpec(t.children[k].child), width)
      {
        PruneSpecFits(t.children[k].child, width);
      }
    }
  }

  /**
   * What the class relies on between calls survives prune: the error rates
   * stay defined, the tree fits every width it fitted, and a consistent tree
   * stays consistent.
   */
  lemma PruneSpecPreserves(t: Tree)
    requires Prunable(t)
    ensures Prunable(PruneSpec(t))
    ensures forall w :: Fits(t, w) ==> Fits(PruneSpec(t), w)
    ensures Consistent(t) ==> Consistent(PruneSpec(t))
  {
    PruneSpecIdempotent(t);
    forall w | Fits(t, w)
      ensures Fits(PruneSpec(t), w)
    {
      PruneSpecFits(t, w);
    }
    if Consistent(t) {
      PruneSpecConsistent(t);
    }
  }

  /** A built tree stays consistent when pruned. */
  lemma {:induction false} PruneSpecConsistent(t: Tree)
    requires Consistent(t)
    ensures Prunable(t) && Consistent(PruneSpec(t))
    decreases t
  {
    ConsistentPrunable(t);
    var r := PruneSpec(t);
    if r.children != [] {
      forall k | 0 <= k < |t.children|
        ensures Consistent(r.children[k].child)
        ensures r.children[k].child.nsamples == t.children[k].child.nsamples
      {
        PruneSpecConsistent(t.children[k].child);
        PruneSpecRoot(t.children[k].child);
      }
      assert ChildTotals(r) == ChildTotals(t);
      assert ChildKeys(r) == ChildKeys(t);
    }
  }

  // ---------------------------------------------------------------------
  // The loop's progress: PruneWhere

  /** Before any node is visited nothing has changed. */
  lemma {:induction false} WhereNone(t: Tree, at: Path)
    requires Prunable(t)
    ensures PruneWhere(t, {}, at) == t
    decreases t
  {
    if t.children != [] {
      forall k | 0 <= k < |t.children|
        ensures PruneWhere(t.children[k].child, {}, at + [k]) == t.children[k].child
      {
        WhereNone(t.children[k].child, at + [k]);
      }
      assert WhereEdges(t, {}, at) == t.children;
    }
  }

  /** Once every node is visited the loop has computed PruneSpec. */
  lemma {:induction false} WhereAll(t: Tree, visited: set<Path>, at: Path)
    requires Prunable(t)
    requires forall q :: ValidPath(t, q) ==> at + q in visited
    ensures PruneWhere(t, visited, at) == PruneSpec(t)
    decreases t
  {
    assert at + [] == at;
    assert ValidPath(t, []);
    if t.children != [] {
      forall k | 0 <= k < |t.children|
        ensures PruneWhere(t.children[k].child, visited, at + [k]) == PruneSpec(t.children[k].child)
      {
        var c := t.children[k].child;
        forall q | ValidPath(c, q)
          ensures (at + [k]) + q in visited
        {
          assert ([k] + q)[1..] == q;
          assert ValidPath(t, [k] + q);
          assert at + ([k] + q) == (at + [k]) + q;
        }
        WhereAll(c, visited, at + [k]);
      }
      assert WhereEdges(t, visited, at) == PrunedEdges(t);
    }
  }

  /** Visiting a node outside the subtree at `at` does not change that subtree. */
  lemma {:induction false} WhereIgnores(t: Tree, visited: set<Path>, q: Path, at: Path)
    requires Prunable(t)
    requires !(at <= q)
    ensures PruneWhere(t, visited + {q}, at) == PruneWhere(t, visited, at)
    decreases t
  {
    if t.children != [] {
      forall k | 0 <= k < |t.children|
        ensures PruneWhere(t.children[k].child, visited + {q}, at + [k]) == PruneWhere(t.children[k].child, visited, at + [k])
      {
        PrefixOfExtension(at, k, q);
        WhereIgnores(t.children[k].child, visited, q, at + [k]);
      }
      assert WhereEdges(t, visited + {q}, at) == WhereEdges(t, visited, at);
    }
  }

  lemma PrefixOfExtension(a: Path, k: nat, q: Path)
    ensures a + [k] <= q ==> a <= q
  {
    if a + [k] <= q {
      assert q[..|a|] == (a + [k])[..|a|] == a;
    }
  }

  /** An unvisited node keeps its fields and its children's keys and counts. */
  lemma WhereUnvisited(t: Tree, visited: set<Path>, at: Path)
    requires Prunable(t) && at !in visited
    ensures var r := PruneWhere(t, visited, at);
      && r.nsamples == t.nsamples && r.cls == t.cls && r.attr == t.attr
      && |r.children| == |t.children|
      && forall k :: 0 <= k < |t.children| ==> r.children[k].child.nsamples == t.children[k].child.nsamples
  {
  }

  /** No node strictly above at + p and at or below at has been visited. */
  predicate AncestorsUnvisited(visited: set<Path>, at: Path, p: Path)
    decreases p
  {
    p == [] || (at !in visited && AncestorsUnvisited(visited, at + [p[0]], p[1..]))
  }

  lemma {:induction false} AncestorsUnvisitedOfPrefixes(visited: set<Path>, at: Path, p: Path)
    requires forall i :: 0 <= i < |p| ==> at + p[..i] !in visited
    ensures AncestorsUnvisited(visited, at, p)
    decreases p
  {
    if p != [] {
      assert at + p[..0] == at;
      forall i | 0 <= i < |p[1..]|
        ensures (at + [p[0]]) + p[1..][..i] !in visited
      {
        assert (at + [p[0]]) + p[1..][..i] == at + p[..i + 1];
      }
      AncestorsUnvisitedOfPrefixes(visited, at + [p[0]], p[1..]);
    }
  }

  lemma UnvisitedFromRoot(visited: set<Path>, p: Path)
    requires forall i :: 0 <= i < |p| ==> p[..i] !in visited
    ensures AncestorsUnvisited(visited, [], p)
  {
    forall i | 0 <= i < |p|
      ensures [] + p[..i] !in visited
    {
      assert [] + p[..i] == p[..i];
    }
    AncestorsUnvisitedOfPrefixes(visited, [], p);
  }

  /**
   * Below a path none of whose proper prefixes has been visited, the tree
   * part way through is the same path with its subtree part way through.
   */
  lemma {:induction false} WhereAt(t: Tree, visited: set<Path>, at: Path, p: Path)
    requires Prunable(t) && ValidPath(t, p)
    requires AncestorsUnvisited(visited, at, p)
    ensures Prunable(At(t, p))
    ensures ValidPath(PruneWhere(t, visited, at), p)
    ensures At(PruneWhere(t, visited, at), p) == PruneWhere(At(t, p), visited, at + p)
    decreases p
  {
    if p == [] {
      assert at + p == at;
    } else {
      var k := p[0];
      assert (at + [k]) + p[1..] == at + p by {
        assert p == [k] + p[1..];
      }
      WhereAt(t.children[k].child, visited, at + [k], p[1..]);
    }
  }

  /**
   * Visiting the node at p: the tree part way through changes at p alone,
   * where the subtree is replaced by its state with p visited.
   */
  lemma {:induction false} WhereVisit(t: Tree, visited: set<Path>, at: Path, p: Path)
    requires Prunable(t) && ValidPath(t, p)
    requires AncestorsUnvisited(visited, at, p)
    ensures ValidPath(PruneWhere(t, visited, at), p)
    ensures Prunable(At(t, p))
    ensures PruneWhere(t, visited + {at + p}, at)
      == ReplaceAt(PruneWhere(t, visited, at), p, PruneWhere(At(t, p), visited + {at + p}, at + p))
    decreases p
  {
    WhereAt(t, visited, at, p);
    if p == [] {
      assert at + p == at;
    } else {
      var k := p[0];
      var q := at + p;
      assert (at + [k]) + p[1..] == q by {
        assert p == [k] + p[1..];
      }
      WhereVisit(t.children[k].child, visited, at + [k], p[1..]);
      OtherChildrenUnchanged(t, visited, at, p);
      VisitCompose(t, visited, at, p, PruneWhere(At(t, p), visited + {q}, q));
    }
  }

  /** Reassembles the root from its k-th child's change and its unchanged other children. */
  lemma VisitCompose(t: Tree, visited: set<Path>, at: Path, p: Path, s: Tree)
    requires Prunable(t) && p != [] && ValidPath(t, p) && at !in visited && at + p != at
    requires ValidPath(PruneWhere(t.children[p[0]].child, visited, at + [p[0]]), p[1..])
    requires PruneWhere(t.children[p[0]].child, visited + {at + p}, at + [p[0]])
      == ReplaceAt(PruneWhere(t.children[p[0]].child, visited, at + [p[0]]), p[1..], s)
    requires forall j :: 0 <= j < |t.children| && j != p[0] ==>
      WhereEdges(t, visited + {at + p}, at)[j] == WhereEdges(t, visited, at)[j]
    ensures ValidPath(PruneWhere(t, visited, at), p)
    ensures PruneWhere(t, visited + {at + p}, at) == ReplaceAt(PruneWhere(t, visited, at), p, s)
  {
    var k := p[0];
    var before := WhereEdges(t, visited, at);
    var after := WhereEdges(t, visited + {at + p}, at);
    assert after == before[k := after[k]];
  }

  /** Visiting a node below the k-th child leaves the other children as they were. */
  lemma OtherChildrenUnchanged(t: Tree, visited: set<Path>, at: Path, p: Path)
    requires Prunable(t) && p != [] && p[0] < |t.children|
    ensures var q := at + p;
      forall j :: 0 <= j < |t.children| && j != p[0] ==>
        WhereEdges(t, visited + {q}, at)[j] == WhereEdges(t, visited, at)[j]
  {
    var q := at + p;
    forall j | 0 <= j < |t.children| && j != p[0]
      ensures WhereEdges(t, visited + {q}, at)[j] == WhereEdges(t, visited, at)[j]
    {
      assert !(at + [j] <= q) by {
        assert q[|at|] == p[0];
      }
      WhereIgnores(t.children[j].child, visited, q, at + [j]);
    }
  }

  /** What visiting one unvisited node does to its own subtree. */
  lemma {:induction false} VisitNode(t: Tree, visited: set<Path>, q: Path)
    requires Prunable(t) && q !in visited
    ensures PruneWhere(t, visited + {q}, q)
      == if t.children != [] && PruneCond(t) then t.(children := []) else PruneWhere(t, visited, q)
  {
    if t.children != [] && !PruneCond(t) {
      forall k | 0 <= k < |t.children|
        ensures PruneWhere(t.children[k].child, visited + {q}, q + [k]) == PruneWhere(t.children[k].child, visited, q + [k])
      {
        WhereIgnores(t.children[k].child, visited, q, q + [k]);
      }
      assert WhereEdges(t, visited + {q}, q) == WhereEdges(t, visited, q);
    }
  }

  /**
   * One iteration of prune's loop on the tree part way through: the node at
   * p reads the counts it had originally, and clearing its children when its
   * condition holds gives the tree with p visited.
   */
  lemma PruneStep(t: Tree, visited: set<Path>, p: Path)
    requires Prunable(t) && ValidPath(t, p)
    requires p !in visited
    requires forall i :: 0 <= i < |p| ==> p[..i] !in visited
    ensures ValidPath(PruneWhere(t, visited, []), p)
    ensures var cur := PruneWhere(t, visited, []); var n := At(cur, p);
      && (n.children != [] ==> Ready(n))
      && PruneWhere(t, visited + {p}, [])
           == if n.children != [] && PruneCond(n) then ReplaceAt(cur, p, n.(children := [])) else cur
  {
    UnvisitedFromRoot(visited, p);
    var q := [] + p;
    assert q == p;
    WhereAt(t, visited, [], p);
    WhereVisit(t, visited, [], p);
    var cur := PruneWhere(t, visited, []);
    VisitUnvisited(At(t, p), visited, p);
    ReplaceAtSelf(cur, p);
  }

  /** At an unvisited node, the visit reads the same counts the original node had and either clears the children or changes nothing. */
  lemma VisitUnvisited(s: Tree, visited: set<Path>, q: Path)
    requires Prunable(s) && q !in visited
    ensures var n := PruneWhere(s, visited, q);
      && (n.children != [] ==> Ready(n))
      && PruneWhere(s, visited + {q}, q) == if n.children != [] && PruneCond(n) then n.(children := []) else n
  {
    var n := PruneWhere(s, visited, q);
    WhereUnvisited(s, visited, q);
    VisitNode(s, visited, q);
    if n.children != [] {
      assert ChildMins(n) == ChildMins(s);
    }
  }

  // ---------------------------------------------------------------------
  // Two small trees: the condition reads min(nsamples), so a child that
  // saw one class only counts all its samples as errors when that class is
  // the first one, and none when it is a later one.

  /** Counts [8, 2] split into [5, 1] and [3, 1]: the estimates tie (2 and 2), and ties are kept. */
  lemma TieIsKept()
    ensures var t := Node([8, 2], 0, Some(1), [Edge(0, Leaf([5, 1])), Edge(1, Leaf([3, 1]))]);
      Ready(t) && !ErrorIncreases(t)
  {
    var t := Node([8, 2], 0, Some(1), [Edge(0, Leaf([5, 1])), Edge(1, Leaf([3, 1]))]);
    PruneCondCounts(t);
    assert ChildMins(t) == [1, 1];
  }

  /** Counts [8, 2] split into [8] and [0, 2]: a perfect split, yet the pure class-0 child counts 8 errors and the node is pruned. */
  lemma PureZeroChildIsPruned()
    ensures var t := Node([8, 2], 0, Some(1), [Edge(0, Leaf([8])), Edge(1, Leaf([0, 2]))]);
      Ready(t) && ErrorIncreases(t)
  {
    var t := Node([8, 2], 0, Some(1), [Edge(0, Leaf([8])), Edge(1, Leaf([0, 2]))]);
    PruneCondCounts(t);
    assert ChildMins(t) == [8, 0];
  }

  /** Counts [8, 2] split into a pure [5] and [3, 2]: the misclassified samples are 0 + 2, the node's own 2, yet a
      one-class child counts its whole size, the estimate reads 5 + 2 = 7 > 2 and the node is pruned. */
  lemma SingleClassChildIsCut()
    ensures var t := Node([8, 2], 0, Some(1), [Edge(0, Leaf([5])), Edge(1, Leaf([3, 2]))]);
      Ready(t) && ErrorIncreases(t)
  {
    var t := Node([8, 2], 0, Some(1), [Edge(0, Leaf([5])), Edge(1, Leaf([3, 2]))]);
    PruneCondCounts(t);
    assert ChildMins(t) == [5, 2];
  }
}
