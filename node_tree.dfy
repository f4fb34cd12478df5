/**
 * The linked segment tree (segtree_node): the same midpoint shape as the
 * array variant, but every node is a heap object {left, right, ele}, built
 * right child first, and updates rewrite the `ele` fields in place on the
 * way back up. The query folds the covering nodes strictly left to right,
 * so it needs only an associative combiner.
 */
module NodeTree {
  import opened Folds
  import opened Midpoint

  class Node<T> {
    var left: Node?<T>
    var right: Node?<T>
    var ele: T
    /** The nodes of the subtree rooted here, this one included. */
    ghost var Repr: set<object>

    /** A fresh leaf: no children, holding `e`. */
    constructor (e: T)
      ensures left == null && right == null && ele == e && Repr == {this}
    {
      left := null;
      right := null;
      ele := e;
      Repr := {this};
    }

    /** A fresh inner node over the two given subtrees, holding `e`. */
    constructor Inner(lt: Node<T>, rt: Node<T>, e: T)
      ensures left == lt && right == rt && ele == e && Repr == {this} + lt.Repr + rt.Repr
    {
      left := lt;
      right := rt;
      ele := e;
      Repr := {this} + lt.Repr + rt.Repr;
    }

    /**
     * The subtree rooted here covers [st, en] of the leaves `xs`: a leaf
     * holds its element, an inner node has two disjoint child subtrees over
     * the midpoint halves and holds their combination.
     */
    ghost predicate Valid(f: (T, T) -> T, xs: seq<T>, st: int, en: int)
      requires 0 <= st <= en < |xs|
      reads this, Repr
      decreases en - st
    {
      this in Repr &&
      if st == en then left == null && right == null && ele == xs[st]
      else
        left != null && right != null &&
        left in Repr && right in Repr &&
        left.Repr <= Repr && right.Repr <= Repr &&
        this !in left.Repr && this !in right.Repr && left.Repr !! right.Repr &&
        left.Valid(f, xs, st, Mid(st, en)) &&
        right.Valid(f, xs, Mid(st, en) + 1, en) &&
        ele == f(left.ele, right.ele)
    }
  }

  /** With an associative combiner, every node holds the fold of the leaves it covers. */
  lemma {:induction false} ValidFold<T(!new)>(node: Node<T>, f: (T, T) -> T, xs: seq<T>, st: int, en: int)
    requires Assoc(f) && 0 <= st <= en < |xs| && node.Valid(f, xs, st, en)
    ensures node.ele == Fold(f, xs[st..en + 1])
    decreases en - st
  {
    if st < en {
      var m := Mid(st, en);
      ValidFold(node.left, f, xs, st, m);
      ValidFold(node.right, f, xs, m + 1, en);
      assert xs[st..en + 1] == xs[st..m + 1] + xs[m + 1..en + 1];
      FoldAppend(f, xs[st..m + 1], xs[m + 1..en + 1]);
    }
  }

  /** A subtree stays consistent with any leaves that agree on the range it covers. */
  lemma {:induction false} ValidLeaves<T>(node: Node<T>, f: (T, T) -> T, xs: seq<T>, ys: seq<T>, st: int, en: int)
    requires 0 <= st <= en < |xs| && |ys| == |xs| && node.Valid(f, xs, st, en)
    requires forall i :: st <= i <= en ==> ys[i] == xs[i]
    ensures node.Valid(f, ys, st, en)
    decreases en - st
  {
    if st < en {
      ValidLeaves(node.left, f, xs, ys, st, Mid(st, en));
      ValidLeaves(node.right, f, xs, ys, Mid(st, en) + 1, en);
    }
  }

  /** A node inside the query range contributes its own element, which folds all its leaves. */
  lemma CoveredNode<T(!new)>(node: Node<T>, f: (T, T) -> T, xs: seq<T>, st: int, en: int, l: int, r: int, acc: Option<T>)
    requires Assoc(f) && 0 <= st <= en < |xs| && node.Valid(f, xs, st, en)
    requires l <= st && en <= r
    ensures Absorb(f, acc, Part(xs, st, en, l, r)) == Some(Join(f, acc, node.ele))
  {
    PartEnds(xs, st, en, l, r);
    ValidFold(node, f, xs, st, en);
  }

  class SegTreeNode<T(!new)> {
    const n: nat
    const combine: (T, T) -> T
    const head: Node<T>
    /** The elements the tree currently stands for, in input order. */
    ghost var leaves: seq<T>
    ghost var Repr: set<object>

    ghost predicate Valid()
      reads this, Repr
    {
      this in Repr && head in Repr && head.Repr <= Repr && this !in head.Repr &&
      n > 0 && |leaves| == n && head.Valid(combine, leaves, 0, n - 1)
    }

    /** Builds from a non-empty sequence; the (size, value) form passes Filled(size, value). */
    constructor (xs: seq<T>, f: (T, T) -> T)
      requires |xs| > 0
      ensures Valid() && fresh(Repr)
      ensures n == |xs| && combine == f && leaves == xs
    {
      n := |xs|;
      combine := f;
      leaves := xs;
      var root := BuildNode(f, 0, |xs| - 1, xs);
      head := root;
      Repr := {this} + root.Repr;
    }

    /** Allocates the subtree covering [st, en], the right half before the left. */
    static method BuildNode(f: (T, T) -> T, st: int, en: int, xs: seq<T>) returns (child: Node<T>)
      requires 0 <= st <= en < |xs|
      ensures fresh(child.Repr) && child.Valid(f, xs, st, en)
      decreases en - st
    {
      if st == en {
        child := new Node(xs[st]);
      } else {
        var m := Mid(st, en);
        var rt := BuildNode(f, m + 1, en, xs);
        var lt := BuildNode(f, st, m, xs);
        assert lt.Repr !! rt.Repr;
        child := new Node.Inner(lt, rt, f(lt.ele, rt.ele));
      }
    }

    /** Assigns v to every leaf in [l, r]; a range with l > r changes nothing. */
    method Update(l: int, r: int, v: T)
      requires Valid()
      modifies Repr
      ensures Valid() && Repr == old(Repr)
      ensures leaves == Assign(old(leaves), l, r, v)
    {
      UpdateRange(0, n - 1, head, l, r, v, leaves);
      leaves := Assign(leaves, l, r, v);
    }

    /** The range-assignment recursion below `node`, which covers [st, en]. */
    method UpdateRange(st: int, en: int, node: Node<T>, l: int, r: int, v: T, ghost xs: seq<T>)
      requires 0 <= st <= en < |xs| && node.Valid(combine, xs, st, en)
      modifies node.Repr
      ensures node.Valid(combine, Assign(xs, l, r, v), st, en)
      ensures node.Repr == old(node.Repr)
      decreases en - st
    {
      if r < st || en < l {
        ValidLeaves(node, combine, xs, Assign(xs, l, r, v), st, en);
        return;
      }
      if st == en {
        node.ele := v;
      } else {
        var m := Mid(st, en);
        UpdateRange(st, m, node.left, l, r, v, xs);
        UpdateRange(m + 1, en, node.right, l, r, v, xs);
        node.ele := combine(node.left.ele, node.right.ele);
      }
    }

    /** Replaces the leaf at i by v; an index outside [0, n) changes nothing. */
    method UpdatePoint(i: int, v: T)
      requires Valid()
      modifies Repr
      ensures Valid() && Repr == old(Repr)
      ensures 0 <= i < n ==> leaves == old(leaves)[i := v]
      ensures !(0 <= i < n) ==> leaves == old(leaves)
    {
      UpdateAt(0, n - 1, head, i, v, leaves);
      if 0 <= i < n {
        AssignPoint(leaves, i, v);
      }
      leaves := Assign(leaves, i, i, v);
    }

    /** The point-update recursion: the range assignment of the one-leaf range [i, i]. */
    method UpdateAt(st: int, en: int, node: Node<T>, i: int, v: T, ghost xs: seq<T>)
      requires 0 <= st <= en < |xs| && node.Valid(combine, xs, st, en)
      modifies node.Repr
      ensures node.Valid(combine, Assign(xs, i, i, v), st, en)
      ensures node.Repr == old(node.Repr)
      decreases en - st
    {
      if i < st {
        ValidLeaves(node, combine, xs, Assign(xs, i, i, v), st, en);
        return;
      }
      if en < i {
        ValidLeaves(node, combine, xs, Assign(xs, i, i, v), st, en);
        return;
      }
      if st == en {
        node.ele := v;
      } else {
        var m := Mid(st, en);
        UpdateAt(st, m, node.left, i, v, xs);
        UpdateAt(m + 1, en, node.right, i, v, xs);
        node.ele := combine(node.left.ele, node.right.ele);
      }
    }

    /** The query recursion: folds into `acc` the covering nodes below `node`, left to right. */
    method QueryRange(st: int, en: int, node: Node<T>, l: int, r: int, acc: Option<T>, ghost xs: seq<T>) returns (res: Option<T>)
      requires Assoc(combine) && 0 <= st <= en < |xs| && node.Valid(combine, xs, st, en)
      ensures res == Absorb(combine, acc, Part(xs, st, en, l, r))
      decreases en - st
    {
      if r < st || en < l {
        PartEnds(xs, st, en, l, r);
        return acc;
      }
      if l <= st && en <= r {
        CoveredNode(node, combine, xs, st, en, l, r, acc);
        return Some(Join(combine, acc, node.ele));
      }
      var m := Mid(st, en);
      var mid := QueryRange(st, m, node.left, l, r, acc, xs);
      res := QueryRange(m + 1, en, node.right, l, r, mid, xs);
      SplitQuery(combine, xs, st, m, en, l, r, acc);
    }

    /** The fold of the leaves in [l, r] clamped to [0, n - 1], left to right. */
    method Query(l: int, r: int) returns (x: T)
      requires Valid() && Assoc(combine)
      requires l <= r && l < n && 0 <= r
      ensures x == Fold(combine, Window(leaves, l, r))
      ensures 0 <= l && r < n ==> x == Fold(combine, leaves[l..r + 1])
    {
      var acc := QueryRange(0, n - 1, head, l, r, None, leaves);
      PartRoot(leaves, l, r);
      x := acc.value;
    }

    /** The root's element: the fold of all the leaves. */
    method Top() returns (x: T)
      requires Valid() && Assoc(combine)
      ensures x == Fold(combine, leaves)
    {
      ValidFold(head, combine, leaves, 0, n - 1);
      assert leaves[0..n] == leaves;
      x := head.ele;
    }
  }
}
