# ID3 decision tree with reduced-error pruning, in Dafny

This project models the decision-tree engine of `3/decision_tree.py` and the
label-comparison helpers `accuracy` and `make_confusion` of `2/common.py`.

- **Table** (`table.dfy`). A table is a sequence of integer rows. Column 0
  holds the class label (a natural number, as `np.bincount` requires) and
  columns 1.. hold the categorical attributes.
- **Node** (`tree.dfy`). A node is a value
  `Node(nsamples, cls, attr, children)`.
  - `nsamples` is the `np.bincount` vector of the labels that reached the node.
  - `cls` is its first arg-max.
  - `attr` is the split column.
  - `children` is an association list from attribute value to child. It is
    kept in insertion order, as the Python dictionary is.
  - A node is named by its *path*: the positions of the edges taken from the
    root. Its parent is the path without the last step.
- **partition** (`partition.dfy`). The sorted distinct values of a column,
  each with the ascending list of row indices that hold it.
- **_best_attribute** (`gain.dfy`). The gain of every attribute column:
  entropy of the labels minus the weighted entropy of the labels of each
  partition group. Then a loop keeps the first strictly greatest gain,
  starting from `(-1, -1)`. `log2` is a parameter, and the arithmetic is on
  exact reals.
- **_build_tree** (`build.dfy`). ID3 as a recursive function. It returns a
  leaf when the labels are pure or when the best gain is not positive.
  Otherwise it returns a node with one child per distinct value of the chosen
  column.
- **_predict, _height, _node_count** (`tree.dfy`). Recursive functions on the
  tree. A row of the training table never takes `_predict`'s missing-key
  fallback. It ends at a leaf that has seen its label, so a row whose leaf is
  pure is predicted correctly (`Builder.TrainingRowReachesLeaf`,
  `Builder.TrainingRowPredicted`).
- **The `DecisionTree` class** (`classifier.dfy`) holds the root. Its methods:
  - `score`, `height` and `node_count` are functions reading the field.
  - `nodes` is a breadth-first loop over a queue of paths.
  - `prune` walks the breadth-first list backwards and overwrites the
    `children` of the nodes it cuts. It is proved equal to `PruneSpec`
    (`prune.dfy`), a top-down statement of which nodes become leaves.
  - `_remove_node` deletes one child entry from the parent and returns the
    parent's path.
- **accuracy and make_confusion** (`common.dfy`).
  - `accuracy` is the number of matching positions over the length, for
    labels of any type with equality.
  - `make_confusion` tallies the pairs into a nested map with a loop, then
    reads the rows out in sorted label order.

The pruning condition follows the code. A node's error estimate is
`min(nsamples)`, not the total minus the largest count. So a pure class-0
child with `nsamples = [n]` counts all its `n` samples as errors.
`Pruning.PureZeroChildIsPruned` shows a perfect split being cut because of
this. Pruning can therefore lower the training accuracy: once that split is
cut, the node predicts class 0 for the two class-1 rows it had classified
correctly. `Pruning.SingleClassChildIsCut` shows a split whose misclassified
counts tie with the node's being cut, where counting total minus largest would
keep it. `Pruning.TieIsKept` shows that equal estimates keep the children.

## Model

| member | source | states |
|---|---|---|
| Trees.Leaf | 3/decision_tree.py:12-26 | a node built without children has no split attribute, keeps the counts it was given, and predicts the first arg-max of those counts: a maximal count with no earlier class reaching it |
| Counts.BinCount | 3/decision_tree.py:70 | slot c counts the labels equal to c; every label has a slot; the vector is empty only for no labels and its last slot is non-zero (length max label + 1) |
| Counts.BinCountSum | 3/decision_tree.py:70 | the counts of a node add up to the number of rows that reached it |
| Counts.ArgMax | 3/decision_tree.py:22 | cls is an index of a maximal count and no earlier index has that count (ties keep the lowest class) |
| Counts.BinCountOfPure | 3/decision_tree.py:70-75 | labels that all equal c count as c zeros followed by their number, and their majority class is c |
| SortedUnique.Unique | 3/decision_tree.py:50 | np.unique is strictly ascending and holds exactly the values of its input |
| SortedUnique.AscendingUnique | 3/decision_tree.py:50 | two strictly ascending lists with the same members are equal, so the sorted distinct values are unique |
| Table.Column | 3/decision_tree.py:88 | data[:, j] has one entry per row and entry i is row i's value in column j |
| Table.Labels | 3/decision_tree.py:69 | data[:, 0] has one entry per row and entry i is row i's label |
| Table.Select | 3/decision_tree.py:87 | data[p] has one entry per index of p and entry k is element p[k] |
| Table.SelectRows | 3/decision_tree.py:87 | the selected rows keep the table's width, and their labels and columns are the selections of the table's labels and columns |
| Partitions.IndicesOf | 3/decision_tree.py:50 | np.where(Xa == v)[0] is ascending and holds exactly the positions whose value is v |
| Partitions.Partition | 3/decision_tree.py:44-50 | one group per distinct value in ascending order, the group for v listing the positions holding v |
| Partitions.PartitionGroups | 3/decision_tree.py:44-50 | the keys are ascending and are exactly the values of the column; every index list is non-empty, ascending and holds exactly the positions of its key |
| Partitions.PartitionDisjoint | 3/decision_tree.py:44-50 | the index lists of two different groups are disjoint, so no position is in two groups |
| Partitions.PartitionFindsEvery | 3/decision_tree.py:44-50 | every position i lies in the group keyed by Xa[i] |
| Partitions.PartitionSizes | 3/decision_tree.py:44-50 | the group sizes add up to the length of the column |
| Partitions.IndicesOfCount | 3/decision_tree.py:50 | the group for v has as many indices as v occurs in the column |
| Partitions.IndicesShrink | 3/decision_tree.py:86-88 | on a column with two or more values, each group is smaller than the table (the recursion shrinks) |
| Partitions.PartitionOfConstant | 3/decision_tree.py:44-50 | a column that holds one value only gives one group holding every position |
| Gain.Probabilities | 3/decision_tree.py:40 | np.bincount(Y) / len(Y): one probability per class, the class count over the number of labels |
| Gain.LabelGroups | 3/decision_tree.py:114-115 | Y[p] for each group p, in group order |
| Gain.Entropy | 3/decision_tree.py:36-41 | minus the sum of p * log2(p) over the non-zero class probabilities |
| Gain.InfoGain | 3/decision_tree.py:114-117 | entropy(Y) minus the entropy of Y within each partition group, weighted by len(p)/len(Xa) |
| Gain.EntropyOfPure | 3/decision_tree.py:36-41 | labels of a single class have entropy 0, given only that log2(1) = 0 |
| Gain.PureProbabilities | 3/decision_tree.py:40 | the probabilities of labels of a single class are each 0 or 1 |
| Gain.PLogPOfZeroOne | 3/decision_tree.py:41 | terms with p = 0 are skipped and p = 1 contributes 0, so the sum is 0 |
| Gain.SingleValuedGain | 3/decision_tree.py:114-117 | a column with at most one distinct value has gain exactly 0, for any log2 |
| Gain.PositiveGainSplits | 3/decision_tree.py:82-89 | positive gain implies the column holds at least two distinct values |
| Gain.WholeGroupWeight | 3/decision_tree.py:114 | a single group holding every row has weight len(p)/len(Xa) = 1 |
| Gain.Best | 3/decision_tree.py:104-128 | (-1, -1) when no gain exceeds -1 (e.g. no attribute columns); otherwise 1 + the position of the first gain that is maximal, and that gain |
| Gain.BestStep | 3/decision_tree.py:121-126 | one more column replaces the best only on a strictly greater gain |
| Gain.BestAttribute | 3/decision_tree.py:97-128 | the loop from (-1, -1) with the strict > update returns exactly Best of the gains of columns 1..width-1 |
| Gain.PositiveBestSplits | 3/decision_tree.py:78-88 | a positive best gain names a real attribute column (1 <= attr < width), and that column holds at least two values |
| Builder.BuildRoot | 3/decision_tree.py:69-95 | the built root counts all labels with np.bincount, predicts their first majority class, and has children exactly when the labels are mixed and the best gain is positive |
| Builder.Build | 3/decision_tree.py:61-95 | ID3: a leaf of np.bincount(Y) for pure labels or a non-positive best gain, otherwise a node on the best attribute with one child per distinct value built on that value's rows |
| Builder.BuildPure | 3/decision_tree.py:74-75 | pure labels give a leaf with height 0 and node count 1 |
| Builder.BuildSplit | 3/decision_tree.py:78-84 | a node is internal only on a positive best gain, splits on the first best attribute, and that column holds two or more values |
| Builder.BuildChildren | 3/decision_tree.py:86-89 | the children are keyed by exactly the distinct values of the chosen column, in ascending order, each built on the rows holding its value |
| Builder.BranchesShape | 3/decision_tree.py:86-89 | the dictionary comprehension has one entry per distinct value, in key order, each mapping the value to the subtree for its rows |
| Builder.SubtreeRows | 3/decision_tree.py:87 | the child for v is built on the non-empty rows np.where(col == v), and its counts add up to their number |
| Builder.BuildNode | 3/decision_tree.py:69-91 | a built root has seen every row, predicts its first majority class, and splits on a column of the table |
| Builder.BuildChildTotals | 3/decision_tree.py:86-89 | the children's sample totals add up to the parent's total |
| Builder.TrainingRowReachesLeaf | 3/decision_tree.py:69-95 | _predict on a row of the training table walks from the built root to a leaf, never taking the missing-key fallback; the leaf's class is its first arg-max and the leaf has seen the row's label |
| Builder.ChildForRow | 3/decision_tree.py:86-89 | at a split node, dtree.children.get(x[attr]) finds the edge for a training row's value, whose child was built on a strictly smaller set of rows that contains the row |
| Builder.EdgeForRow | 3/decision_tree.py:86-89 | at a split node the row's value of the split column is a key of the children, and its edge leads to the subtree built for that value |
| Builder.TrainingRowPredicted | 3/decision_tree.py:131-143 | a training row whose leaf has no other class than its label is predicted correctly |
| Builder.BuildConsistent | 3/decision_tree.py:61-95 | every node of a built tree has these properties, and every split attribute is a column of the table |
| Trees.FindKey | 3/decision_tree.py:136 | dtree.children.get(v): None exactly when no edge carries v, otherwise the first edge carrying v |
| Trees.Predict | 3/decision_tree.py:130-143 | _predict: the node's class at a leaf or when no edge carries the row's value, otherwise the prediction of the child on that edge |
| Trees.PredictWalk | 3/decision_tree.py:130-143 | _predict returns the cls of the node where its walk from the root stops, and that node is a leaf or has no edge for the row's value |
| Trees.WalkFollowsKeys | 3/decision_tree.py:133-143 | every step of the walk leaves an internal node by the edge keyed with the row's value of its attribute |
| Trees.WalkDescends | 3/decision_tree.py:136-143 | when the walk from the child on the row's edge ends at a leaf that saw the row's label, so does the walk from the node |
| Trees.Height | 3/decision_tree.py:153-158 | _height: 0 for a leaf, otherwise one more than the greatest child height |
| Trees.NodeCount | 3/decision_tree.py:163-168 | _node_count: at least 1; 1 for a leaf, otherwise one more than the sum of the child counts |
| Trees.HeightBelowCount | 3/decision_tree.py:150-168 | the height is smaller than the node count |
| Trees.LeafSizes | 3/decision_tree.py:154-168 | a node without children has height 0 and node count 1 |
| Trees.AllPathsExact | 3/decision_tree.py:160-168 | the paths of the tree are exactly the valid paths, and there are node_count of them |
| Trees.ReplaceAtCount | 3/decision_tree.py:228 | overwriting one node changes the node count by the difference of the two subtrees |
| Trees.AtReplaceAt | 3/decision_tree.py:228 | after overwriting the node at p, the node at p is the new one |
| Trees.ReplaceAtElsewhere | 3/decision_tree.py:228 | overwriting the node at p leaves every node that is neither an ancestor nor a descendant of p unchanged |
| Trees.ReplaceAtAbove | 3/decision_tree.py:228 | overwriting the node at p keeps nsamples, cls, attr_idx and the child keys of every proper ancestor of p |
| Trees.RemoveAt | 3/decision_tree.py:170-186 | the tree with the last edge of a non-root path deleted from the children of that path's parent |
| Trees.RemoveAtParent | 3/decision_tree.py:170-186 | removing a non-root node deletes exactly its entry from its parent's children, keeps the other entries in order, and lowers the count by its subtree |
| Trees.CutCount | 3/decision_tree.py:181-184 | deleting one child entry lowers the node count by that child's subtree |
| Trees.ReplaceAtFits | 3/decision_tree.py:228 | overwriting a node with a subtree that fits a row width keeps the whole tree fitting it |
| Trees.RemoveAtFits | 3/decision_tree.py:181-184 | deleting a child entry keeps every split attribute inside the row width |
| Trees.CutFits | 3/decision_tree.py:183 | dropping one entry of a node's children keeps the node fitting the row width |
| Traversal.BfsInit | 3/decision_tree.py:194 | the queue holding only the root meets the invariant of nodes() |
| Traversal.BfsStep | 3/decision_tree.py:196-200 | popleft, extend with the children and yield keep the invariant: each node queued or yielded once, after its ancestors, with the yielded nodes and the queued subtrees making up the tree |
| Traversal.BfsStepOrdered | 3/decision_tree.py:196-200 | appending the popped node's children to the queue keeps the yielded list followed by the queue in level order, with every queued path at most one step deeper than the head |
| Traversal.LexExtend | 3/decision_tree.py:198 | the children of a node that comes earlier within a level come earlier within the next level |
| Traversal.LexSiblings | 3/decision_tree.py:198 | children.values() are queued in dictionary order, so an earlier sibling comes first |
| Traversal.ChildPathsCount | 3/decision_tree.py:198 | swapping a node for its children in the queue removes exactly that one node from the count |
| Traversal.CoverFromCount | 3/decision_tree.py:191-200 | node_count distinct nodes of the tree are all of its nodes |
| Traversal.BackwardsUnvisited | 3/decision_tree.py:205-209 | walking the reversed BFS list, no ancestor of the current node has been visited yet |
| Classifier.Predictions | 3/decision_tree.py:147 | one prediction per row, the i-th being _predict of row i |
| Classifier.PerfectPredictions | 3/decision_tree.py:147-148 | the predictions match the labels at every position exactly when every row's label is predicted |
| Classifier.DecisionTree.constructor | 3/decision_tree.py:55-59 | the root is the built tree, which is consistent, fits the table and can be pruned |
| Classifier.DecisionTree.Score | 3/decision_tree.py:145-148 | accuracy of data[:, 0] against the per-row predictions, for any integer label value in the table (negative ones included); it lies in [0, 1] and is 1 exactly when every row's label is predicted |
| Classifier.DecisionTree.Height | 3/decision_tree.py:150-158 | the height is smaller than node_count, and 0 for a leaf root |
| Classifier.DecisionTree.NodeCount | 3/decision_tree.py:160-168 | at least 1, one per node of the tree, and 1 for a leaf root |
| Classifier.DecisionTree.Nodes | 3/decision_tree.py:191-200 | root first, every node of the tree exactly once, node_count of them, in level order: depths never decrease, and within a depth nodes follow their parents' order and then their own position among the siblings |
| Classifier.DecisionTree.Prune | 3/decision_tree.py:202-228 | the loop over the reversed BFS list leaves the root equal to PruneSpec of the original tree; the result can be pruned again, still fits every row width the original fitted, and stays consistent when the original was |
| Classifier.DecisionTree.RemoveNode | 3/decision_tree.py:170-186 | the root is not removed and gives None; any other node is deleted from its parent's children and the parent is returned; a prunable tree stays prunable and a tree fitting a row width still fits it |
| Pruning.PruneCondCounts | 3/decision_tree.py:216-224 | the children's error rate exceeds the node's exactly when the children's min counts add up to more than the node's min count |
| Pruning.NodeErrorRate | 3/decision_tree.py:216 | min(nsamples) / sum(nsamples) of the node |
| Pruning.ChildErrorRate | 3/decision_tree.py:218-221 | the sum over the children of min(child.nsamples), each divided by the parent's sum(nsamples) |
| Pruning.PruneCond | 3/decision_tree.py:224 | the children's error rate exceeds the node's, stated on counts |
| Pruning.PruneSpec | 3/decision_tree.py:202-228 | a leaf stays; an internal node whose error rises becomes a leaf with its nsamples, cls and attr_idx; any other internal node keeps its keys in order with each child pruned |
| Pruning.PruneSpecRoot | 3/decision_tree.py:209-228 | prune keeps nsamples, cls and attr_idx, clears children exactly when the node is internal and the error rises, and otherwise prunes each child |
| Pruning.PruneSpecNodes | 3/decision_tree.py:202-228 | every node of the pruned tree is an original node with the same nsamples, cls and attr_idx, which is a leaf exactly when it was one or its error rose |
| Pruning.PruneSpecKeeps | 3/decision_tree.py:209-228 | a node survives when none of its ancestors was cut |
| Pruning.PruneSpecCount | 3/decision_tree.py:202-228 | pruning never increases the node count or the height |
| Pruning.PruneSpecIdempotent | 3/decision_tree.py:202-228 | a second prune changes nothing |
| Pruning.PruneSpecConsistent | 3/decision_tree.py:202-228 | pruning a built tree keeps every node's counts, class and key order consistent |
| Pruning.PruneSpecFits | 3/decision_tree.py:202-228 | pruning keeps every split attribute inside any row width the tree fitted |
| Pruning.PruneSpecPreserves | 3/decision_tree.py:202-228 | the pruned tree can be pruned again, fits every row width the original fitted, and is consistent when the original was |
| Pruning.ReplaceAtPrunable | 3/decision_tree.py:228 | overwriting a node with a prunable subtree of the same counts keeps the tree prunable and the root's counts |
| Pruning.RemoveAtPrunable | 3/decision_tree.py:181-184 | deleting a child entry from a prunable tree keeps it prunable |
| Pruning.CutPrunable | 3/decision_tree.py:183 | dropping one entry of a prunable node's children keeps the node prunable |
| Pruning.ConsistentPrunable | 3/decision_tree.py:216-219 | on a built tree the error rates are defined at every internal node (no division by zero, no empty min) |
| Pruning.PruneStep | 3/decision_tree.py:209-228 | visiting one node whose ancestors are still unvisited clears its children exactly when its error rises, and changes nothing else |
| Pruning.TieIsKept | 3/decision_tree.py:224 | counts [8, 2] split into [5, 1] and [3, 1] tie (2/10 and 2/10), and a tie keeps the children |
| Pruning.PureZeroChildIsPruned | 3/decision_tree.py:216-224 | counts [8, 2] split into [8] and [0, 2] are cut, because min([8]) counts 8 errors |
| Pruning.SingleClassChildIsCut | 3/decision_tree.py:216-224 | counts [8, 2] split into [5] and [3, 2] are cut: the majority errors tie (2 and 2), but min([5]) counts 5 errors and 7 > 2 |
| Common.Correct | 2/common.py:10 | for labels of any type with equality, the number of matches is at most the length, and equals it exactly when every position matches |
| Common.Accuracy | 2/common.py:5-11 | for labels of any type with equality, accuracy times len(actual) is the number of matches; it lies in [0, 1] and is 1 exactly when every position matches |
| Common.Fraction | 2/common.py:11 | a count out of n, divided by n, lies in [0, 1] and is 1 exactly when the count is n |
| Common.Confusion | 2/common.py:22-35 | one row per distinct actual label |
| Common.MakeConfusion | 2/common.py:14-37 | the loops over the nested dictionary produce exactly the matrix Confusion defines |
| Common.TallyPairs | 2/common.py:22-29 | after the loop, cm[a][p] is the number of positions with actual a and predicted p, for all labels a and p |
| Common.PairCount | 2/common.py:28-29 | the number of the first n positions whose actual label is a and predicted label is p |
| Common.TallyStep | 2/common.py:28-29 | one increment of cm[a][p] keeps the tally exact for one more position |
| Common.Zeros | 2/common.py:22-25 | every pair of labels starts at 0 |
| Common.Increment | 2/common.py:29 | cm[a][p] += 1 changes that one cell only |
| Common.Rows | 2/common.py:33-35 | the rows appended in sorted label order are the rows of the matrix |
| Common.TallyRows | 2/common.py:33-35 | the row of label a, read in sorted label order, is row a of Confusion |
| Common.LabelsInKeys | 2/common.py:22-29 | when every predicted label is an actual label, every pair indexes an existing cell (no key error) |
| Common.ConfusionShape | 2/common.py:22-35 | a k by k matrix, k the number of distinct actual labels, in ascending label order |
| Common.ConfusionRowSum | 2/common.py:28-35 | the row of label a adds up to the occurrences of a in actual |
| Common.ConfusionTotal | 2/common.py:28-35 | all entries add up to len(actual) |
| Common.ConfusionTrace | 2/common.py:10-35 | the diagonal adds up to the number of matching positions, the numerator of accuracy |

## Left out

- Floating point: entropies and gains are exact reals, and `np.log2` is a
  parameter `log2: real -> real`. Only the exact facts are used: pure labels
  have entropy 0 given `log2(1) = 0`, and a single-valued column has gain
  exactly 0. Comparisons that rounding could flip, such as a tie between two
  gains or between two error rates, may come out differently in floats.
- Gain.Gains: stated only as the list of per-column gains that
  `Gain.BestAttribute` folds over; no property of the gain values beyond the
  two exact ones above is claimed. The loop computes every gain before it
  compares them, since the gain computation has no side effects.
- Parent references and node identity: nodes are paths from the root, and the
  parent is the path minus its last step. `_remove_node`'s search for the
  entry whose child *is* the node becomes the position at the end of the path.
- The shared mutable default `children={}` of `Node`: a leaf's children are
  the empty value. This matches the code because `prune` assigns a new
  dictionary rather than mutating the shared one.
- `DecisionTree(None)` (root `None`): not modelled. The class is always built
  from a non-empty table, and an empty table has no `np.bincount` arg-max.
- Division by zero and empty `min`: `prune` requires `Prunable` (every
  internal node has seen a sample and every child has counts), and every
  built tree satisfies it (`Pruning.ConsistentPrunable`). `accuracy` requires
  a non-empty input.
- `score` uses an `accuracy` imported from a `common` module next to
  `3/decision_tree.py`, which is not part of this model. It is modelled with
  the `accuracy` of `2/common.py`.
- `nodes()` is a generator; it is modelled as a method returning the full
  list of yielded paths. `prune` materialises that list anyway.
- `nodes.reverse()` followed by a forward loop is modelled as a loop running
  down the unreversed list.
- Common.MakeConfusion: the labels are integers, while the source sorts any
  hashable, orderable labels, such as the strings read in `2/q1_nb.py`. The
  matrix uses the labels only through equality and their sorted order, so
  relabelling them to integers in that order gives the same matrix.
  `Common.Confusion` and `Common.PairCount` take integer labels for the same
  reason.
- `make_confusion` raises a key error when a predicted label is not an
  actual label. The model makes that a precondition, and also requires the
  equal lengths that the source asserts.
- `plot_confusion` (matplotlib/seaborn output) and the other programs of the
  repository (`2/q1_nb.py`, `2/q2_svm.py`, `3/neural_network.py`,
  `4/q1_d_cnn.py`): file I/O, plotting, numerical optimisation and neural
  networks, outside this core.
- `Node.__repr__`: string formatting only.
