/**
 * The top-down array segment tree (segtree_recur): node k covering [st, en]
 * sits in slot k of a buffer of 1 << (2 + floor(log2 n)) slots, its children
 * 2k and 2k+1 cover the two midpoint halves, and build, range assignment,
 * point update and query are recursions from the root that write slots in
 * place.
 */
module RecurTree {
  import opened Folds
  import opened Midpoint

  /**
   * The subtree rooted at slot `node`, covering [st, en], is consistent with
   * the leaves `xs`: a leaf slot holds its element, an inner slot holds the
   * combination of its two children's slots.
   */
  ghost predicate NodeOk<T>(t: seq<T>, f: (T, T) -> T, xs: seq<T>, st: int, en: int, node: int)
    requires 0 <= st <= en < |xs|
    decreases en - st
  {
    1 <= node < |t| &&
    if st == en then t[node] == xs[st]
    else
      2 * node + 1 < |t| &&
      NodeOk(t, f, xs, st, Mid(st, en), 2 * node) &&
      NodeOk(t, f, xs, Mid(st, en) + 1, en, 2 * node + 1) &&
      t[node] == f(t[2 * node], t[2 * node + 1])
  }

  /** `u` equals `t` everywhere outside the subtree rooted at slot a. */
  ghost predicate SameOutside<T>(t: seq<T>, u: seq<T>, a: int) {
    |u| == |t| && forall j {:trigger u[j]} :: 0 <= j < |t| && !InSubtree(a, j) ==> u[j] == t[j]
  }

  /** `u` equals `t` everywhere inside the subtree rooted at slot a. */
  ghost predicate SameInside<T>(t: seq<T>, u: seq<T>, a: int) {
    |u| == |t| && forall j {:trigger u[j]} :: 0 <= j < |t| && InSubtree(a, j) ==> u[j] == t[j]
  }

  /** The buffer after slot `node` is recomputed from its two children. */
  function Recombine<T>(t: seq<T>, f: (T, T) -> T, node: int): seq<T>
    requires 1 <= node && 2 * node + 1 < |t|
  {
    t[node := f(t[2 * node], t[2 * node + 1])]
  }

  /** With an associative combiner, every slot holds the fold of the leaves its node covers. */
  lemma {:induction false} NodeOkFold<T(!new)>(t: seq<T>, f: (T, T) -> T, xs: seq<T>, st: int, en: int, node: int)
    requires Assoc(f) && 0 <= st <= en < |xs| && NodeOk(t, f, xs, st, en, node)
    ensures t[node] == Fold(f, xs[st..en + 1])
    decreases en - st
  {
    if st < en {
      var m := Mid(st, en);
      NodeOkFold(t, f, xs, st, m, 2 * node);
      NodeOkFold(t, f, xs, m + 1, en, 2 * node + 1);
      assert xs[st..en + 1] == xs[st..m + 1] + xs[m + 1..en + 1];
      FoldAppend(f, xs[st..m + 1], xs[m + 1..en + 1]);
    }
  }

  /**
   * A subtree stays consistent when nothing inside it changes and the leaves
   * it covers keep their values.
   */
  lemma {:induction false} NodeOkFrame<T>(t: seq<T>, u: seq<T>, f: (T, T) -> T, xs: seq<T>, ys: seq<T>, st: int, en: int, node: int)
    requires 0 <= st <= en < |xs| && |ys| == |xs|
    requires NodeOk(t, f, xs, st, en, node) && SameInside(t, u, node)
    requires forall i :: st <= i <= en ==> ys[i] == xs[i]
    ensures NodeOk(u, f, ys, st, en, node)
    decreases en - st
  {
    assert InSubtree(node, node);
    if st < en {
      var m := Mid(st, en);
      InsideChild(t, u, node, 2 * node);
      InsideChild(t, u, node, 2 * node + 1);
      NodeOkFrame(t, u, f, xs, ys, st, m, 2 * node);
      NodeOkFrame(t, u, f, xs, ys, m + 1, en, 2 * node + 1);
    }
  }

  /** What is kept inside a node's subtree is kept inside each child's. */
  lemma InsideChild<T>(t: seq<T>, u: seq<T>, a: int, c: int)
    requires a >= 1 && (c == 2 * a || c == 2 * a + 1)
    requires SameInside(t, u, a)
    ensures SameInside(t, u, c)
  {
    forall j | 0 <= j < |t| && InSubtree(c, j)
      ensures u[j] == t[j]
    {
      ChildSubtree(a, c, j);
    }
  }

  /** Changing only the subtree of one child leaves the other child's subtree as it was. */
  lemma SiblingKept<T>(t: seq<T>, u: seq<T>, a: int, c: int, d: int)
    requires a >= 1 && ((c == 2 * a && d == 2 * a + 1) || (c == 2 * a + 1 && d == 2 * a))
    requires SameOutside(t, u, c)
    ensures SameInside(t, u, d)
  {
    forall j | 0 <= j < |t| && InSubtree(d, j)
      ensures u[j] == t[j]
    {
      SiblingSubtreesDisjoint(a, j);
    }
  }

  /** Recombining the slot of a node whose two children are consistent makes the node consistent. */
  lemma Recombined<T>(t2: seq<T>, t3: seq<T>, f: (T, T) -> T, ys: seq<T>, st: int, en: int, node: int)
    requires 0 <= st < en < |ys| && 1 <= node && 2 * node + 1 < |t2|
    requires NodeOk(t2, f, ys, st, Mid(st, en), 2 * node)
    requires NodeOk(t2, f, ys, Mid(st, en) + 1, en, 2 * node + 1)
    requires t3 == Recombine(t2, f, node)
    ensures NodeOk(t3, f, ys, st, en, node)
  {
    forall c | c == 2 * node || c == 2 * node + 1
      ensures SameInside(t2, t3, c)
    {
      forall j | 0 <= j < |t2| && InSubtree(c, j)
        ensures t3[j] == t2[j]
      {
        assert j != node;
      }
    }
    NodeOkFrame(t2, t3, f, ys, ys, st, Mid(st, en), 2 * node);
    NodeOkFrame(t2, t3, f, ys, ys, Mid(st, en) + 1, en, 2 * node + 1);
  }

  lemma RecombinedOk<T>(t2: seq<T>, f: (T, T) -> T, ys: seq<T>, st: int, en: int, node: int)
    requires 0 <= st < en < |ys| && 1 <= node && 2 * node + 1 < |t2|
    requires NodeOk(t2, f, ys, st, Mid(st, en), 2 * node)
    requires NodeOk(t2, f, ys, Mid(st, en) + 1, en, 2 * node + 1)
    ensures NodeOk(Recombine(t2, f, node), f, ys, st, en, node)
  {
    Recombined(t2, Recombine(t2, f, node), f, ys, st, en, node);
  }

  lemma RecombinedFrame<T>(t0: seq<T>, t1: seq<T>, t2: seq<T>, f: (T, T) -> T, node: int)
    requires 1 <= node && 2 * node + 1 < |t2|
    requires SameOutside(t0, t1, 2 * node) && SameOutside(t1, t2, 2 * node + 1)
    ensures SameOutside(t0, Recombine(t2, f, node), node)
  {
    Outside(t0, t1, t2, Recombine(t2, f, node), f, node);
  }

  /** Changes confined to the two children's subtrees and the node's own slot stay inside the node's subtree. */
  lemma Outside<T>(t0: seq<T>, t1: seq<T>, t2: seq<T>, t3: seq<T>, f: (T, T) -> T, node: int)
    requires 1 <= node && 2 * node + 1 < |t2|
    requires SameOutside(t0, t1, 2 * node) && SameOutside(t1, t2, 2 * node + 1)
    requires t3 == Recombine(t2, f, node)
    ensures SameOutside(t0, t3, node)
  {
    forall j | 0 <= j < |t0| && !InSubtree(node, j)
      ensures t3[j] == t0[j]
    {
      if InSubtree(2 * node, j) {
        ChildSubtree(node, 2 * node, j);
      }
      if InSubtree(2 * node + 1, j) {
        ChildSubtree(node, 2 * node + 1, j);
      }
    }
  }

  /** Writing a leaf's element into its slot makes that one-slot subtree consistent. */
  lemma LeafSet<T>(t0: seq<T>, t1: seq<T>, f: (T, T) -> T, ys: seq<T>, st: int, node: int)
    requires 0 <= st < |ys| && 1 <= node < |t0| && t1 == t0[node := ys[st]]
    ensures NodeOk(t1, f, ys, st, st, node) && SameOutside(t0, t1, node)
  {
    assert InSubtree(node, node);
  }

  /** A subtree whose range misses [l, r] is already consistent with the assigned leaves. */
  lemma Untouched<T>(t: seq<T>, f: (T, T) -> T, xs: seq<T>, l: int, r: int, v: T, st: int, en: int, node: int)
    requires 0 <= st <= en < |xs| && NodeOk(t, f, xs, st, en, node)
    requires r < st || en < l
    ensures NodeOk(t, f, Assign(xs, l, r, v), st, en, node)
  {
    NodeOkFrame(t, t, f, xs, Assign(xs, l, r, v), st, en, node);
  }

  /** The buffer after the build recursion fills the subtree rooted at `node`, covering [st, en]. */
  ghost function BuildNodes<T>(t: seq<T>, f: (T, T) -> T, xs: seq<T>, st: int, en: int, node: int): (u: seq<T>)
    requires 0 <= st <= en < |xs| && Fits(|t|, st, en, node)
    ensures |u| == |t|
    decreases en - st
  {
    if st == en then t[node := xs[st]]
    else
      var m := Mid(st, en);
      var t1 := BuildNodes(t, f, xs, st, m, 2 * node);
      var t2 := BuildNodes(t1, f, xs, m + 1, en, 2 * node + 1);
      Recombine(t2, f, node)
  }

  /** The build recursion below `node` writes only the slots of that subtree. */
  lemma {:induction false} BuildNodesFrame<T>(t: seq<T>, f: (T, T) -> T, xs: seq<T>, st: int, en: int, node: int)
    requires 0 <= st <= en < |xs| && Fits(|t|, st, en, node)
    ensures SameOutside(t, BuildNodes(t, f, xs, st, en, node), node)
    decreases en - st
  {
    assert InSubtree(node, node);
    if st < en {
      var m := Mid(st, en);
      var t1 := BuildNodes(t, f, xs, st, m, 2 * node);
      BuildNodesFrame(t, f, xs, st, m, 2 * node);
      BuildNodesFrame(t1, f, xs, m + 1, en, 2 * node + 1);
      var t2 := BuildNodes(t1, f, xs, m + 1, en, 2 * node + 1);
      RecombinedFrame(t, t1, t2, f, node);
    }
  }

  /** Building makes the subtree consistent with the leaves, whatever the buffer held. */
  lemma {:induction false} BuildNodesOk<T>(t: seq<T>, f: (T, T) -> T, xs: seq<T>, st: int, en: int, node: int)
    requires 0 <= st <= en < |xs| && Fits(|t|, st, en, node)
    ensures NodeOk(BuildNodes(t, f, xs, st, en, node), f, xs, st, en, node)
    decreases en - st, 2
  {
    if st == en {
      LeafSet(t, BuildNodes(t, f, xs, st, en, node), f, xs, st, node);
    } else {
      var m := Mid(st, en);
      var t2 := BuildNodes(BuildNodes(t, f, xs, st, m, 2 * node), f, xs, m + 1, en, 2 * node + 1);
      BuildLeftDone(t, f, xs, st, en, node);
      BuildRightDone(t, f, xs, st, en, node);
      RecombinedOk(t2, f, xs, st, en, node);
    }
  }

  /** Once both children of an inner node are built, the left child's subtree is consistent. */
  lemma {:induction false} BuildLeftDone<T>(t: seq<T>, f: (T, T) -> T, xs: seq<T>, st: int, en: int, node: int)
    requires 0 <= st < en < |xs| && Fits(|t|, st, en, node)
    ensures NodeOk(BuildNodes(BuildNodes(t, f, xs, st, Mid(st, en), 2 * node), f, xs, Mid(st, en) + 1, en, 2 * node + 1),
                   f, xs, st, Mid(st, en), 2 * node)
    decreases en - st, 1
  {
    var m := Mid(st, en);
    var t1 := BuildNodes(t, f, xs, st, m, 2 * node);
    BuildNodesOk(t, f, xs, st, m, 2 * node);
    BuildNodesFrame(t1, f, xs, m + 1, en, 2 * node + 1);
    var t2 := BuildNodes(t1, f, xs, m + 1, en, 2 * node + 1);
    SiblingKept(t1, t2, node, 2 * node + 1, 2 * node);
    NodeOkFrame(t1, t2, f, xs, xs, st, m, 2 * node);
  }

  /** Once both children of an inner node are built, the right child's subtree is consistent. */
  lemma {:induction false} BuildRightDone<T>(t: seq<T>, f: (T, T) -> T, xs: seq<T>, st: int, en: int, node: int)
    requires 0 <= st < en < |xs| && Fits(|t|, st, en, node)
    ensures NodeOk(BuildNodes(BuildNodes(t, f, xs, st, Mid(st, en), 2 * node), f, xs, Mid(st, en) + 1, en, 2 * node + 1),
                   f, xs, Mid(st, en) + 1, en, 2 * node + 1)
    decreases en - st, 1
  {
    var m := Mid(st, en);
    var t1 := BuildNodes(t, f, xs, st, m, 2 * node);
    BuildNodesOk(t1, f, xs, m + 1, en, 2 * node + 1);
  }

  /** The buffer after the range-assignment recursion below `node`, for [l, r] := v. */
  ghost function AssignNodes<T>(t: seq<T>, f: (T, T) -> T, st: int, en: int, node: int, l: int, r: int, v: T): (u: seq<T>)
    requires 0 <= st <= en && Fits(|t|, st, en, node)
    ensures |u| == |t|
    decreases en - st
  {
    if r < st || en < l then t
    else if st == en then t[node := v]
    else
      var m := Mid(st, en);
      var t1 := AssignNodes(t, f, st, m, 2 * node, l, r, v);
      var t2 := AssignNodes(t1, f, m + 1, en, 2 * node + 1, l, r, v);
      Recombine(t2, f, node)
  }

  /** Range assignment below `node` writes only slots of that subtree. */
  lemma {:induction false} AssignNodesFrame<T>(t: seq<T>, f: (T, T) -> T, st: int, en: int, node: int, l: int, r: int, v: T)
    requires 0 <= st <= en && Fits(|t|, st, en, node)
    ensures SameOutside(t, AssignNodes(t, f, st, en, node, l, r, v), node)
    decreases en - st
  {
    assert InSubtree(node, node);
    if st < en && !(r < st || en < l) {
      var m := Mid(st, en);
      var t1 := AssignNodes(t, f, st, m, 2 * node, l, r, v);
      AssignNodesFrame(t, f, st, m, 2 * node, l, r, v);
      AssignNodesFrame(t1, f, m + 1, en, 2 * node + 1, l, r, v);
      var t2 := AssignNodes(t1, f, m + 1, en, 2 * node + 1, l, r, v);
      RecombinedFrame(t, t1, t2, f, node);
    }
  }

  /**
   * Range assignment keeps a consistent subtree consistent, now with the
   * leaves in [l, r] replaced by v.
   */
  lemma {:induction false} AssignNodesOk<T>(t: seq<T>, f: (T, T) -> T, xs: seq<T>, st: int, en: int, node: int, l: int, r: int, v: T)
    requires 0 <= st <= en < |xs| && NodeOk(t, f, xs, st, en, node) && Fits(|t|, st, en, node)
    ensures NodeOk(AssignNodes(t, f, st, en, node, l, r, v), f, Assign(xs, l, r, v), st, en, node)
    decreases en - st, 2
  {
    if r < st || en < l {
      Untouched(t, f, xs, l, r, v, st, en, node);
    } else if st == en {
      LeafSet(t, AssignNodes(t, f, st, en, node, l, r, v), f, Assign(xs, l, r, v), st, node);
    } else {
      var m := Mid(st, en);
      var t2 := AssignNodes(AssignNodes(t, f, st, m, 2 * node, l, r, v), f, m + 1, en, 2 * node + 1, l, r, v);
      LeftDone(t, f, xs, st, en, node, l, r, v);
      RightDone(t, f, xs, st, en, node, l, r, v);
      RecombinedOk(t2, f, Assign(xs, l, r, v), st, en, node);
    }
  }

  /** Once both children of an inner node are rewritten, the left child's subtree is consistent. */
  lemma {:induction false} LeftDone<T>(t: seq<T>, f: (T, T) -> T, xs: seq<T>, st: int, en: int, node: int, l: int, r: int, v: T)
    requires 0 <= st < en < |xs| && NodeOk(t, f, xs, st, en, node) && Fits(|t|, st, en, node)
    ensures NodeOk(AssignNodes(AssignNodes(t, f, st, Mid(st, en), 2 * node, l, r, v), f, Mid(st, en) + 1, en, 2 * node + 1, l, r, v),
                   f, Assign(xs, l, r, v), st, Mid(st, en), 2 * node)
    decreases en - st, 1
  {
    var m := Mid(st, en);
    var t1 := AssignNodes(t, f, st, m, 2 * node, l, r, v);
    AssignNodesOk(t, f, xs, st, m, 2 * node, l, r, v);
    AssignNodesFrame(t1, f, m + 1, en, 2 * node + 1, l, r, v);
    var t2 := AssignNodes(t1, f, m + 1, en, 2 * node + 1, l, r, v);
    SiblingKept(t1, t2, node, 2 * node + 1, 2 * node);
    NodeOkFrame(t1, t2, f, Assign(xs, l, r, v), Assign(xs, l, r, v), st, m, 2 * node);
  }

  /** Once both children of an inner node are rewritten, the right child's subtree is consistent. */
  lemma {:induction false} RightDone<T>(t: seq<T>, f: (T, T) -> T, xs: seq<T>, st: int, en: int, node: int, l: int, r: int, v: T)
    requires 0 <= st < en < |xs| && NodeOk(t, f, xs, st, en, node) && Fits(|t|, st, en, node)
    ensures NodeOk(AssignNodes(AssignNodes(t, f, st, Mid(st, en), 2 * node, l, r, v), f, Mid(st, en) + 1, en, 2 * node + 1, l, r, v),
                   f, Assign(xs, l, r, v), Mid(st, en) + 1, en, 2 * node + 1)
    decreases en - st, 1
  {
    var m := Mid(st, en);
    var t1 := AssignNodes(t, f, st, m, 2 * node, l, r, v);
    AssignNodesFrame(t, f, st, m, 2 * node, l, r, v);
    KeepRight(t, t1, f, xs, st, en, node);
    AssignNodesOk(t1, f, xs, m + 1, en, 2 * node + 1, l, r, v);
  }

  /** Rewriting the left child's subtree keeps the right child's subtree consistent. */
  lemma KeepRight<T>(t: seq<T>, t1: seq<T>, f: (T, T) -> T, xs: seq<T>, st: int, en: int, node: int)
    requires 0 <= st < en < |xs| && NodeOk(t, f, xs, st, en, node)
    requires SameOutside(t, t1, 2 * node)
    ensures NodeOk(t1, f, xs, Mid(st, en) + 1, en, 2 * node + 1)
  {
    SiblingKept(t, t1, node, 2 * node, 2 * node + 1);
    NodeOkFrame(t, t1, f, xs, xs, Mid(st, en) + 1, en, 2 * node + 1);
  }

  /** A node inside the query range contributes its own slot, which folds all its leaves. */
  lemma CoveredNode<T(!new)>(t: seq<T>, f: (T, T) -> T, xs: seq<T>, st: int, en: int, node: int, l: int, r: int, acc: Option<T>)
    requires Assoc(f) && 0 <= st <= en < |xs| && NodeOk(t, f, xs, st, en, node)
    requires l <= st && en <= r
    ensures Absorb(f, acc, Part(xs, st, en, l, r)) == Some(Join(f, acc, t[node]))
  {
    PartEnds(xs, st, en, l, r);
    NodeOkFold(t, f, xs, st, en, node);
  }

  /**
   * The defective query as written: a fully covered node is recorded only
   * while the accumulator is still absent, so later covered nodes are
   * dropped. It agrees with the intended fold exactly when a single node
   * covers the query range, as for a single index or the whole range
   * [0, n-1].
   */
  function AsWrittenQuery<T>(t: seq<T>, st: int, en: int, node: int, l: int, r: int, acc: Option<T>): (res: Option<T>)
    requires 0 <= st <= en && Fits(|t|, st, en, node)
    ensures acc.Some? ==> res == acc
    decreases en - st
  {
    if r < st || en < l then acc
    else if l <= st && en <= r then (if acc.None? then Some(t[node]) else acc)
    else
      var m := Mid(st, en);
      AsWrittenQuery(t, m + 1, en, 2 * node + 1, l, r, AsWrittenQuery(t, st, m, 2 * node, l, r, acc))
  }

  /** On a consistent tree the defective query answers a single-index query correctly. */
  lemma {:induction false} AsWrittenPoint<T>(t: seq<T>, f: (T, T) -> T, xs: seq<T>, st: int, en: int, node: int, i: int)
    requires 0 <= st <= en < |xs| && NodeOk(t, f, xs, st, en, node) && Fits(|t|, st, en, node)
    ensures AsWrittenQuery(t, st, en, node, i, i, None) == if st <= i <= en then Some(xs[i]) else None
    decreases en - st
  {
    if st < en && st <= i <= en {
      var m := Mid(st, en);
      AsWrittenPoint(t, f, xs, st, m, 2 * node, i);
      AsWrittenPoint(t, f, xs, m + 1, en, 2 * node + 1, i);
    }
  }

  function Sum(a: int, b: int): int {
    a + b
  }

  /**
   * Summing [1, 2, 3] in a buffer of 8 slots: the query over [1, 2] takes
   * slot 5 (the leaf 2), then finds slot 3 (the leaf 3) covered but drops
   * it, answering 2 rather than 5.
   */
  lemma AsWrittenDropsCoveredNode()
    ensures BufferSize(3) == 8
    ensures Fits(8, 0, 2, 1)
    ensures AsWrittenQuery([0, 6, 3, 3, 1, 2, 0, 0], 0, 2, 1, 1, 2, None) == Some(2)
    ensures Fold(Sum, [1, 2, 3][1..3]) == 5
    ensures NodeOk([0, 6, 3, 3, 1, 2, 0, 0], Sum, [1, 2, 3], 0, 2, 1)
  {
    assert Log2(3) == 1;
    var t := [0, 6, 3, 3, 1, 2, 0, 0];
    var xs := [1, 2, 3];
    assert NodeOk(t, Sum, xs, 0, 1, 2);
    assert Fits(8, 0, 1, 2);
    assert AsWrittenQuery(t, 0, 1, 2, 1, 2, None) == Some(2);
    assert xs[1..3] == [2, 3] && [2, 3][..1] == [2];
  }

  class SegTreeRecur<T(!new)> {
    const n: nat
    const combine: (T, T) -> T
    const tree: array<T>
    /** The elements the tree currently stands for, in input order. */
    ghost var leaves: seq<T>

    ghost predicate Valid()
      reads this, tree
    {
      n > 0 && |leaves| == n && tree.Length == BufferSize(n) &&
      NodeOk(tree[..], combine, leaves, 0, n - 1, 1)
    }

    /** Builds from a non-empty sequence; the (size, value) form passes Filled(size, value). */
    constructor (xs: seq<T>, f: (T, T) -> T)
      requires |xs| > 0
      ensures Valid() && fresh(tree)
      ensures n == |xs| && combine == f && leaves == xs
    {
      n := |xs|;
      combine := f;
      leaves := xs;
      BufferFits(|xs|);
      tree := new T[BufferSize(|xs|)](_ => xs[0]);
      new;
      ghost var t0 := tree[..];
      BuildNodesOk(t0, f, xs, 0, n - 1, 1);
      Build(0, n - 1, 1, xs);
      assert tree[..] == BuildNodes(t0, f, xs, 0, n - 1, 1);
    }

    /** Fills the subtree rooted at `node`, covering [st, en], from the leaves xs. */
    method Build(st: int, en: int, node: int, xs: seq<T>)
      requires 0 <= st <= en < |xs| && Fits(tree.Length, st, en, node)
      modifies tree
      ensures tree[..] == BuildNodes(old(tree[..]), combine, xs, st, en, node)
      decreases en - st
    {
      if st == en {
        tree[node] := xs[st];
      } else {
        var m := Mid(st, en);
        Build(st, m, 2 * node, xs);
        Build(m + 1, en, 2 * node + 1, xs);
        tree[node] := combine(tree[2 * node], tree[2 * node + 1]);
      }
    }

    /** Range assignment: every leaf in [l, r] becomes v, the others keep their value. */
    method Update(l: int, r: int, v: T)
      requires Valid()
      modifies this, tree
      ensures Valid()
      ensures leaves == Assign(old(leaves), l, r, v)
    {
      BufferFits(n);
      AssignNodesOk(tree[..], combine, leaves, 0, n - 1, 1, l, r, v);
      UpdateRange(0, n - 1, 1, l, r, v);
      leaves := Assign(leaves, l, r, v);
    }

    /**
     * The recursion of the range assignment below `node`: a subtree that
     * misses [l, r] returns at once, a leaf inside it takes v, and an inner
     * node recombines after both children.
     */
    method UpdateRange(st: int, en: int, node: int, l: int, r: int, v: T)
      requires 0 <= st <= en && Fits(tree.Length, st, en, node)
      modifies tree
      ensures tree[..] == AssignNodes(old(tree[..]), combine, st, en, node, l, r, v)
      decreases en - st
    {
      if st > r || en < l {
        return;
      }
      if st == en {
        tree[node] := v;
      } else {
        var m := Mid(st, en);
        UpdateRange(st, m, 2 * node, l, r, v);
        UpdateRange(m + 1, en, 2 * node + 1, l, r, v);
        tree[node] := combine(tree[2 * node], tree[2 * node + 1]);
      }
    }

    /**
     * Point update, as the single-leaf case of the range recursion; an index
     * outside [0, n-1] reaches no leaf and changes nothing.
     */
    method UpdatePoint(i: int, v: T)
      requires Valid()
      modifies this, tree
      ensures Valid()
      ensures 0 <= i < n ==> leaves == old(leaves)[i := v]
      ensures !(0 <= i < n) ==> leaves == old(leaves)
    {
      BufferFits(n);
      AssignNodesOk(tree[..], combine, leaves, 0, n - 1, 1, i, i, v);
      UpdateRange(0, n - 1, 1, i, i, v);
      if 0 <= i < n {
        AssignPoint(leaves, i, v);
      }
      leaves := Assign(leaves, i, i, v);
    }

    /**
     * The intended query below `node`: the accumulator absorbs, from left to
     * right, the value of every maximal node inside [l, r].
     */
    method QueryRange(st: int, en: int, node: int, l: int, r: int, acc: Option<T>, ghost xs: seq<T>) returns (res: Option<T>)
      requires Assoc(combine)
      requires 0 <= st <= en < |xs| && NodeOk(tree[..], combine, xs, st, en, node)
      ensures res == Absorb(combine, acc, Part(xs, st, en, l, r))
      decreases en - st
    {
      if r < st || en < l {
        PartEnds(xs, st, en, l, r);
        return acc;
      }
      if l <= st && en <= r {
        CoveredNode(tree[..], combine, xs, st, en, node, l, r, acc);
        return Some(Join(combine, acc, tree[node]));
      }
      ghost var t := tree[..];
      var m := Mid(st, en);
      assert NodeOk(t, combine, xs, m + 1, en, 2 * node + 1);
      var left := QueryRange(st, m, 2 * node, l, r, acc, xs);
      assert tree[..] == t;
      res := QueryRange(m + 1, en, 2 * node + 1, l, r, left, xs);
      SplitQuery(combine, xs, st, m, en, l, r, acc);
    }

    /** The combination of the elements in [l, r] clamped to [0, n - 1], folded left to right. */
    method Query(l: int, r: int) returns (x: T)
      requires Valid() && Assoc(combine)
      requires l <= r && l < n && 0 <= r
      ensures x == Fold(combine, Window(leaves, l, r))
      ensures 0 <= l && r < n ==> x == Fold(combine, leaves[l..r + 1])
    {
      var acc := QueryRange(0, n - 1, 1, l, r, None, leaves);
      PartRoot(leaves, l, r);
      x := acc.value;
    }

    /** The root slot: the combination of all elements. */
    method Top() returns (x: T)
      requires Valid() && Assoc(combine)
      ensures x == Fold(combine, leaves)
    {
      NodeOkFold(tree[..], combine, leaves, 0, n - 1, 1);
      assert leaves[0..n] == leaves;
      x := tree[1];
    }
  }
}
