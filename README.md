# Verified model of `segment_tree.hpp`

`segment_tree.hpp` provides three generic segment trees over an element type
and a user-supplied binary combiner. The default combiner is pairwise maximum.
All three support:

- **build** from a range of elements or from a `(size, value)` pair;
- **range query**: the combination of the elements in `[l, r]`;
- **range assignment** `update(l, r, v)`;
- **point update**;
- **`top()`**: the combination of all elements.

This project models each of the three in imperative Dafny and proves that
every operation keeps the tree consistent with the elements it stands for.

| file | module | source class | shape |
|---|---|---|---|
| `folds.dfy` | `Folds` | all | Shared specification. The left fold `Fold` of a non-empty run of elements. The "absent, then present" accumulator the queries keep instead of an identity element (`Join`, `Absorb`). Range assignment `Assign` on the element sequence. The associativity and commutativity laws. The default `Max` combiner. |
| `midpoint.dfy` | `Midpoint` | `segtree_recur`, `segtree_node` | The midpoint split `mid = (st+en)/2`. The integer `floor(log2 n)`. The array variant's buffer size `1 << (2 + floor(log2 n))`, and the proof that every slot it touches lies below that size. |
| `iter_tree.dfy` | `IterTree` | `segtree_iter` | Bottom-up array tree. A buffer of `2n` slots holds the leaves in `[n, 2n)` and slot `i` in `[1, n)` holds `f(tree[2i], tree[2i+1])`. The loops of build, query and update are modelled as written, with their invariants. |
| `recur_tree.dfy` | `RecurTree` | `segtree_recur` | Top-down array tree. Node `k` covers `[st, en]` and its children `2k` and `2k+1` cover the two midpoint halves. The recursive lambdas become recursive methods that write the array in place. Each is specified by a pure function of the buffer it starts from (`BuildNodes`, `AssignNodes`), about which the consistency and frame lemmas are proved. |
| `node_tree.dfy` | `NodeTree` | `segtree_node` | Linked tree of heap `Node` objects `{left, right, ele}`, each with a ghost `Repr` footprint. Build allocates the right subtree before the left. Updates rewrite `ele` in place on the way back up. |

Every variant carries a ghost copy of the elements it stands for: `Leaves()`
for the iterative variant, `leaves` for the other two. `Valid()` ties the
stored buffer or nodes to that copy. Every update states its new contents as
`Assign(old(leaves), l, r, v)`. Every query and `top()` states its answer as
`Fold` of the queried slice. The recursive and node queries also accept a
range reaching past either end, and fold its part inside `[0, n-1]`.

Each query needs a combiner property:

- **Iterative variant: associative and commutative.** Its right cursor folds
  nodes in reverse. Its update combines `tree[j]` with `tree[j^1]` whichever
  side `j` is on. With `n` not a power of two, slot 1 combines leaves out of
  order. With `n` a power of two, slot 1 holds the in-order fold, so `top()`
  then needs only associativity.
- **Recursive and node variants: associative only.** They fold the covering
  nodes left to right.

The recursive variant's query as written keeps only the first fully covered
node. The model proves the left-to-right fold that the node variant
implements, and shows the defect separately (see Findings).

## Model

| member | source | states |
|---|---|---|
| Folds.FoldMaxIsMaximum | segment_tree.hpp:89 | A fold of the default combiner over a non-empty range is one of its elements and is at least every element. |
| Folds.MaxIsAssocComm | segment_tree.hpp:89 | The default combiner is associative and commutative, so every query contract below applies to it. |
| Folds.FoldMaxFilled | segment_tree.hpp:125-137 | For a tree built from `(size, value)` with the default combiner, any range of k leaves folds to value. |
| Folds.FoldSumFilled | segment_tree.hpp:125-137 | For a tree built from `(size, value)` with addition as the combiner, any range of k leaves folds to k times value. |
| Folds.FoldAppend | segment_tree.hpp:305-308 | With an associative combiner, combining the folds of two adjacent halves is the fold of their concatenation. This is why a node holding `f(left, right)` holds the fold of its range. |
| Folds.AbsorbAppend | segment_tree.hpp:702-707 | Absorbing two adjacent runs into the accumulator one after the other is absorbing their concatenation. |
| Folds.AbsorbLast | segment_tree.hpp:170-179 | With an associative and commutative combiner, absorbing a run taken from the right end first gives the same accumulator as absorbing the whole left to right. |
| Folds.PartEnds | segment_tree.hpp:698-702 | A node range disjoint from `[l, r]` contributes no leaves to the query. A node range inside `[l, r]` contributes all of its leaves. |
| Folds.PartSplit | segment_tree.hpp:710-713 | The leaves a node contributes to a query are the left child's contribution followed by the right child's. |
| Folds.SplitQuery | segment_tree.hpp:710-713 | Querying the left child and then the right child with the accumulator gives the same accumulator as absorbing the whole node's contribution. |
| Folds.PartRoot | segment_tree.hpp:718-719 | At the root covering `[0, n-1]`, the contribution to a query over `[l, r]` is the window of `[l, r]` clamped to `[0, n-1]`. That window is non-empty exactly when `l <= r`, `l < n` and `0 <= r`. It is the slice `leaves[l..r+1]` when `0 <= l <= r < n`. |
| Folds.AssignPoint | segment_tree.hpp:661-686 | A point update of index i has the same effect as the range assignment of `[i, i]`: only position i changes, to v. |
| Folds.AssignedRange | segment_tree.hpp:187-196 | After a range assignment, every position of `[l, r]` holds v. |
| Midpoint.Mid | segment_tree.hpp:305 | For `st < en`, the split point gives two non-empty halves `[st, mid]` and `[mid+1, en]`, the left one equal in size to the right or one larger. |
| Midpoint.Log2 | segment_tree.hpp:295 | The integer floor of log2 n: `2^k <= n < 2^(k+1)`. |
| Midpoint.BufferSize | segment_tree.hpp:295-296 | The buffer size `1 << (2 + floor(log2 n))` is greater than 2n and at most 4n. |
| Midpoint.FitsBelow | segment_tree.hpp:299-310 | A node whose range has at most 2^k leaves, and whose index satisfies `(node+1)*2^k <= size`, has every descendant's slot below size. |
| Midpoint.BufferSizeInInt | segment_tree.hpp:295-296 | The buffer size `1 << (2 + floor(log2 n))` is below 2^31, and so fits a 32-bit `int`, exactly when `n < 2^29`. |
| Midpoint.BufferFits | segment_tree.hpp:294-311 | Every slot the recursion from node 1 over `[0, n-1]` touches is below the allocated buffer size. |
| Midpoint.SiblingSubtreesDisjoint | segment_tree.hpp:306-307 | No slot lies under both children of a node, so the two recursive calls write disjoint slots. |
| IterTree.ContentsBlock | segment_tree.hpp:115-120 | When `n` is a power of two, a slot `e` levels above the leaves holds the contiguous run of `2^e` leaves below it, in input order. |
| IterTree.NodeValue | segment_tree.hpp:118-120 | On a consistent buffer with an associative combiner, every slot holds the fold of the leaves under it, in the order the tree combines them. |
| IterTree.Sibling | segment_tree.hpp:195 | `j ^ 1` is the other child of j's parent. |
| IterTree.BuildStep | segment_tree.hpp:120 | Each step of the build's second loop extends the block of slots that hold their children's combination down by one slot. |
| IterTree.Rewrite | segment_tree.hpp:195 | Writing one slot can break the combination invariant only at its parent. For an internal slot, the written value must be its children's combination. |
| IterTree.RootFolds | segment_tree.hpp:232-235 | With an associative and commutative combiner, the fold of the leaves under slot 1 equals the fold of the leaves `[n, 2n)` in input order. |
| IterTree.TakeLeft | segment_tree.hpp:161-168 | Folding in the slot under an odd left cursor and stepping it right keeps the query's result. |
| IterTree.TakeRight | segment_tree.hpp:170-179 | With a commutative combiner, stepping an odd right cursor left and folding in its slot keeps the query's result. |
| IterTree.Round | segment_tree.hpp:160-180 | One round of the cursor loop moves into the accumulator exactly the leaves the cursors pass over. Both cursors halve while staying ordered. |
| IterTree.WalkCover | segment_tree.hpp:160-180 | The whole cursor walk from slots `[lo, hi)` absorbs exactly the leaves under those slots. |
| IterTree.WalkFolds | segment_tree.hpp:156-184 | Started at leaf slots `[l+n, r+1+n)`, the walk yields the fold of leaves l..r. |
| IterTree.SegTreeIter.constructor | segment_tree.hpp:112-124 | The build writes leaf slot n+i with element i and then every internal slot, from n-1 down to 1, with its children's combination. The buffer is then consistent, with leaves exactly the input. |
| IterTree.SegTreeIter.Query | segment_tree.hpp:152-186 | For `0 <= l <= r < n` and an associative, commutative combiner, the cursor loop terminates and returns the fold of leaves l..r. |
| IterTree.SegTreeIter.Update | segment_tree.hpp:187-197 | For each i in `[l, r]` the update writes leaf i and recomputes its ancestors. The leaves become `Assign(old leaves, l, r, v)` and the buffer stays consistent. |
| IterTree.SegTreeIter.Recompute | segment_tree.hpp:195 | The climb from a rewritten slot recomputes every ancestor and restores the combination invariant everywhere, leaving every leaf slot unchanged. |
| IterTree.SegTreeIter.Top | segment_tree.hpp:232-235 | Slot 1 holds the fold of all leaves, for an associative combiner that is also commutative or whose `n` is a power of two. |
| RecurTree.NodeOkFold | segment_tree.hpp:299-310 | In a consistent buffer with an associative combiner, slot node holds the fold of the elements `[st, en]` it covers. |
| RecurTree.NodeOkFrame | segment_tree.hpp:374-377 | A subtree stays consistent when none of its slots change and the elements it covers keep their values. This is why the early returns of the update are sound. |
| RecurTree.BuildNodesFrame | segment_tree.hpp:299-310 | The build recursion below a node writes only slots of that node's subtree. |
| RecurTree.BuildNodesOk | segment_tree.hpp:299-311 | Whatever the buffer held before, the build recursion leaves the node's subtree consistent with the elements. |
| RecurTree.AssignNodesFrame | segment_tree.hpp:372-387 | The range-assignment recursion below a node writes only slots of that node's subtree. |
| RecurTree.AssignNodesOk | segment_tree.hpp:372-387 | The range-assignment recursion turns a subtree consistent with the elements into one consistent with the elements after `[l, r] := v`. |
| RecurTree.CoveredNode | segment_tree.hpp:425-429 | A node inside the query range contributes its slot, which is the fold of all its leaves. |
| RecurTree.AsWrittenQuery | segment_tree.hpp:415-440 | The query as written: once the accumulator holds a value, nothing further changes it. |
| RecurTree.AsWrittenPoint | segment_tree.hpp:415-440 | On a consistent buffer, the query as written answers a single-index query `[i, i]` correctly. |
| RecurTree.AsWrittenDropsCoveredNode | segment_tree.hpp:427-428 | On the consistent sum tree over `[1, 2, 3]`, the query as written over `[1, 2]` returns 2, not the fold 5. |
| RecurTree.SegTreeRecur.constructor | segment_tree.hpp:291-315 | The constructor allocates `1 << (2 + floor(log2 n))` slots and builds from node 1 over `[0, n-1]`. The buffer is then consistent, with leaves exactly the input. |
| RecurTree.SegTreeRecur.Build | segment_tree.hpp:299-310 | The build recursion writes the buffer described by BuildNodes, which BuildNodesOk proves consistent. |
| RecurTree.SegTreeRecur.UpdateRange | segment_tree.hpp:372-387 | The update recursion writes the buffer described by AssignNodes, which AssignNodesOk proves consistent with the assigned elements. |
| RecurTree.SegTreeRecur.Update | segment_tree.hpp:367-389 | After `update(l, r, v)` the tree is consistent with `Assign(old leaves, l, r, v)`. |
| RecurTree.SegTreeRecur.UpdatePoint | segment_tree.hpp:391-413 | After a point update of i in `[0, n)`, the leaves are the old ones with position i replaced by v. An index outside changes nothing. The tree stays consistent. |
| RecurTree.SegTreeRecur.QueryRange | segment_tree.hpp:419-435 | The corrected query recursion returns the accumulator after absorbing, left to right, the node's leaves that fall in `[l, r]`. |
| RecurTree.SegTreeRecur.Query | segment_tree.hpp:415-440 | For an associative combiner and any `l <= r` meeting `[0, n-1]`, the corrected query returns the fold of the leaves in `[l, r]` clamped to `[0, n-1]`. Inside the range, that is the fold of leaves l..r. |
| RecurTree.SegTreeRecur.Top | segment_tree.hpp:477-480 | Slot 1 holds the fold of all leaves. |
| NodeTree.ValidFold | segment_tree.hpp:560-577 | In a consistent subtree with an associative combiner, every node's `ele` is the fold of the elements it covers. |
| NodeTree.ValidLeaves | segment_tree.hpp:642-645 | A subtree stays consistent with any element sequence that agrees on the range it covers, so the update's early returns are sound. |
| NodeTree.CoveredNode | segment_tree.hpp:702-707 | A node inside the query range contributes its `ele`, the fold of all its leaves. |
| NodeTree.SegTreeNode.BuildNode | segment_tree.hpp:560-577 | The build recursion, right child before left, returns a fresh subtree consistent with the elements `[st, en]`. |
| NodeTree.SegTreeNode.constructor | segment_tree.hpp:533-583 | After construction the tree is consistent, with leaves exactly the input. |
| NodeTree.SegTreeNode.UpdateRange | segment_tree.hpp:640-657 | The recursion rewrites `ele` fields in place and leaves the subtree consistent with `Assign(xs, l, r, v)`, with an unchanged footprint. |
| NodeTree.SegTreeNode.Update | segment_tree.hpp:636-660 | After `update(l, r, v)` the tree is consistent with `Assign(old leaves, l, r, v)`. |
| NodeTree.SegTreeNode.UpdateAt | segment_tree.hpp:665-682 | The point update's own recursion, with guards `l < st` and `en < l`, leaves the subtree consistent with `Assign(xs, i, i, v)`: the same effect as the range recursion on `[i, i]`. |
| NodeTree.SegTreeNode.UpdatePoint | segment_tree.hpp:661-686 | After a point update of i in `[0, n)`, the leaves are the old ones with position i replaced by v. An index outside changes nothing. |
| NodeTree.SegTreeNode.QueryRange | segment_tree.hpp:695-717 | The query recursion returns the accumulator after absorbing, left to right, the node's leaves that fall in `[l, r]`. |
| NodeTree.SegTreeNode.Query | segment_tree.hpp:688-723 | For a merely associative combiner and any `l <= r` meeting `[0, n-1]`, the query returns the fold of the leaves in `[l, r]` clamped to `[0, n-1]`. Inside the range, that is the fold of leaves l..r. |
| NodeTree.SegTreeNode.Top | segment_tree.hpp:730-733 | The root's `ele` is the fold of all leaves. |

## Left out

- Build timing (`clock()`, `build_time`, `time_taken()`) is nondeterministic and only for diagnostics, so it is not modelled.
- The `log_terminal` console printing in each class is not modelled, because it is I/O.
- `SAFE_DELETE`, the node destructor and the heap-allocated accumulators of the queries are left out. Dafny is garbage-collected, so the accumulator is an `Option` value threaded through the recursion rather than a shared pointer.
- Each class has three builds: iterator pair, `(size, value)` and container. All three read elements into the same positions, so one constructor from a sequence models them. The `(size, value)` build corresponds to passing `Filled(size, value)`.
- The default constructors, which build an empty tree, are not modelled.
- Iterator arithmetic, the `Container` template parameter and `std::function` type erasure are replaced by `seq<T>` and a function value.
- The recursive variant computes `floor(log2 n)` in floating point. The model computes it on integers. The case `n = 0` (log of 0) is excluded by the constructor's `requires |xs| > 0`, as it is for the node variant, whose build would not terminate on an empty range.
- The recursive and node queries require `l <= r`, `l < n` and `0 <= r`, i.e. a range meeting `[0, n-1]`. Their guards clamp any such range. For a range that misses `[0, n-1]`, or has `l > r`, no node is covered, and the source dereferences a null accumulator. The iterative query requires `0 <= l <= r < n`, because it indexes `tree_cont[l + n]` and `tree_cont[r + n]` directly. The iterative update likewise requires `0 <= l` and `r < n`. The recursive and node updates accept any `l`, `r`, as their guards make an out-of-range part a no-op.
- Integers are unbounded in the model, so it matches the source's 32-bit `int` arithmetic only while that does not overflow. The recursive variant's `1 << (2 + floor(log2 n))` at line 296 overflows once `n >= 2^29` (BufferSizeInInt), so the model assumes `n < 2^29` there. The iterative variant's `cont_size << 1` at line 115 overflows once `n >= 2^30`, so the model assumes `n < 2^30` there. The node variant's `st + en` at line 711 stays below 2^31 for `n <= 2^30`.
- IterTree.SegTreeIter.Query: requires an associative and commutative combiner, because its right cursor folds nodes in reverse. The model proves nothing about the order it uses for a non-commutative combiner.
- IterTree.SegTreeIter.Top: requires commutativity unless `n` is a power of two. For other `n` the leaves sit on two levels, and slot 1 combines them in an order other than left to right. The model proves nothing about that order.
- IterTree.SegTreeIter.Update: requires a commutative combiner, because the source recombines a right child as `f(right, left)`. The model does not state what happens to the slot invariant for a non-commutative combiner.
- RecurTree.SegTreeRecur.UpdatePoint: models the single-leaf update that the node variant's point update implements. The source's `update_recur(int index, int value)` instead assigns its `int` argument to the whole container at line 403 and takes an `int` rather than an element. The model does not reproduce that statement.
- RecurTree.SegTreeRecur.Query: models the intended left-to-right fold. The source keeps only the first fully covered node (see Findings). The two agree whenever one node covers the query range, for example a single index (proved in AsWrittenPoint) or `[0, n-1]`.
- Query and Top in the recursive and node variants require an associative combiner, since folding node values is only then the fold of the leaves.
- `test_case.cpp` is a demonstration program that prints timings and `top()` values, so it is not part of this model.

## Findings

| source | as written | input that shows it | evidently intended | confidence | as-written member | corrected member |
|---|---|---|---|---|---|---|
| segment_tree.hpp:427-428 | `query_recur` stores the value of the first fully covered node. It ignores every later covered node, because it only writes when the accumulator is still null. | `n = 3`, elements `[1, 2, 3]`, combiner `+`, `query_recur(1, 2)` returns 2 (slot 5 holds 2; slot 3 holds 3 and is dropped) instead of 5 | Fold every covered node into the accumulator left to right, as `query_node` does at lines 704-707 | not executed | RecurTree.AsWrittenDropsCoveredNode | RecurTree.SegTreeRecur.Query |
