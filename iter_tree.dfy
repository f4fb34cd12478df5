/**
 * The bottom-up (iterative) segment tree: one buffer of 2n slots, leaves in
 * slots [n, 2n) in input order, slot i in [1, n) holding the combination of
 * slots 2i and 2i+1, slot 0 unused.
 *
 * When n is not a power of two the leaves sit on two levels, so the leaves
 * under a slot are not a contiguous run of the input, and the query folds its
 * right-hand nodes in reverse. The results are folds of the right leaves in
 * some order; they equal the left-to-right fold when the combiner is
 * associative and commutative, which is what the contracts below require.
 * Only the root read is exempt when n is a power of two: then every slot
 * holds a contiguous run of leaves in order.
 */
module IterTree {
  import opened Folds
  import opened Midpoint

  /** Slot i holds the combination of its two children. */
  ghost predicate Combined<T>(t: seq<T>, f: (T, T) -> T, i: int)
    requires 1 <= i && 2 * i + 1 < |t|
  {
    t[i] == f(t[2 * i], t[2 * i + 1])
  }

  /** The invariant the build establishes and every update restores. */
  ghost predicate Heap<T>(t: seq<T>, n: nat, f: (T, T) -> T) {
    |t| == 2 * n && forall i :: 1 <= i < n ==> Combined(t, f, i)
  }

  /** The leaves under slot i, in the order the tree combines them. */
  ghost function Contents<T>(t: seq<T>, n: nat, i: int): (c: seq<T>)
    requires |t| == 2 * n && 1 <= i < 2 * n
    ensures |c| > 0
    decreases 2 * n - i
  {
    if i >= n then [t[i]] else Contents(t, n, 2 * i) + Contents(t, n, 2 * i + 1)
  }

  /**
   * When n is a power of two every leaf sits on one level, so slot i, e levels
   * above the leaves, holds the contiguous run of 2^e leaves below it in order.
   */
  lemma {:induction false} ContentsBlock<T>(t: seq<T>, n: nat, i: int, e: nat)
    requires |t| == 2 * n && 1 <= i
    requires n <= i * Pow2(e) && (i + 1) * Pow2(e) <= 2 * n
    ensures Contents(t, n, i) == t[i * Pow2(e)..(i + 1) * Pow2(e)]
    decreases e
  {
    if e == 0 {
      assert t[i..i + 1] == [t[i]];
    } else {
      var p := Pow2(e - 1);
      Halves(i, p);
      assert Pow2(e) == 2 * p;
      var lo, mid, hi := (2 * i) * p, (2 * i + 1) * p, (2 * i + 2) * p;
      assert lo == i * Pow2(e) && hi == (i + 1) * Pow2(e);
      assert i < n;
      ContentsBlock(t, n, 2 * i, e - 1);
      ContentsBlock(t, n, 2 * i + 1, e - 1);
      calc {
        Contents(t, n, i);
        Contents(t, n, 2 * i) + Contents(t, n, 2 * i + 1);
        t[lo..mid] + t[mid..hi];
        t[lo..hi];
      }
    }
  }

  /** Slot i's run of 2p leaves is its left child's run of p followed by its right child's. */
  lemma Halves(i: int, p: nat)
    requires i >= 1 && p >= 1
    ensures i * (2 * p) == (2 * i) * p
    ensures (2 * i + 1) * p == (2 * i) * p + p
    ensures (i + 1) * (2 * p) == (2 * i + 1) * p + p >= 2 * i + 2
  {
    assert (2 * i + 2) * p == (2 * i + 2) + (2 * i + 2) * (p - 1);
  }

  /** The leaves under the consecutive slots a, a+1, ..., b-1. */
  ghost function Cover<T>(t: seq<T>, n: nat, a: int, b: int): (c: seq<T>)
    requires |t| == 2 * n && 1 <= a && b <= 2 * n
    ensures a < b ==> |c| > 0
    decreases b - a
  {
    if a >= b then [] else Contents(t, n, a) + Cover(t, n, a + 1, b)
  }

  /** The bit trick j ^ 1: the other child of j's parent. */
  function Sibling(j: nat): (s: nat)
    ensures s / 2 == j / 2 && s != j
  {
    if j % 2 == 0 then j + 1 else j - 1
  }

  /** Every slot holds the fold of the leaves under it. */
  lemma {:induction false} NodeValue<T(!new)>(t: seq<T>, n: nat, f: (T, T) -> T, i: int)
    requires Heap(t, n, f) && Assoc(f) && 1 <= i < 2 * n
    ensures t[i] == Fold(f, Contents(t, n, i))
    decreases 2 * n - i
  {
    if i < n {
      assert Combined(t, f, i);
      NodeValue(t, n, f, 2 * i);
      NodeValue(t, n, f, 2 * i + 1);
      FoldAppend(f, Contents(t, n, 2 * i), Contents(t, n, 2 * i + 1));
    }
  }

  lemma {:induction false} CoverSnoc<T>(t: seq<T>, n: nat, a: int, b: int)
    requires |t| == 2 * n && 1 <= a < b <= 2 * n
    ensures Cover(t, n, a, b) == Cover(t, n, a, b - 1) + Contents(t, n, b - 1)
    decreases b - a
  {
    if a < b - 1 {
      CoverSnoc(t, n, a + 1, b);
    }
  }

  /** Moving both cursors up one level leaves the covered leaves unchanged. */
  lemma {:induction false} CoverHalve<T>(t: seq<T>, n: nat, a: int, b: int)
    requires |t| == 2 * n && 2 <= a <= b <= 2 * n && a % 2 == 0 && b % 2 == 0
    ensures Cover(t, n, a / 2, b / 2) == Cover(t, n, a, b)
    decreases b - a
  {
    if a < b {
      CoverHalve(t, n, a + 2, b);
    }
  }

  /** On the leaf level the covered leaves are the slots themselves. */
  lemma {:induction false} CoverLeaves<T>(t: seq<T>, n: nat, a: int, b: int)
    requires |t| == 2 * n && n <= a && 1 <= a && a <= b <= 2 * n
    ensures Cover(t, n, a, b) == t[a..b]
    decreases b - a
  {
    if a < b {
      CoverLeaves(t, n, a + 1, b);
    }
  }

  /** Slot 1 sits above every leaf exactly once: the frontier [m, 2m) covers what slot 1 covers. */
  lemma CoverOne<T>(t: seq<T>, n: nat, a: int)
    requires |t| == 2 * n && 1 <= a < 2 * n
    ensures Cover(t, n, a, a + 1) == Contents(t, n, a)
  {
    assert Cover(t, n, a, a + 1) == Contents(t, n, a) + [];
  }

  /** Moving the frontier [m-1, 2m-2) to [m, 2m) trades slot m-1 for its two children at the far end. */
  lemma FrontierStep<T>(t: seq<T>, n: nat, m: int) returns (front: seq<T>, mid: seq<T>)
    requires |t| == 2 * n && 2 <= m <= n
    ensures Cover(t, n, m - 1, 2 * (m - 1)) == front + mid
    ensures Cover(t, n, m, 2 * m) == mid + front && |front| > 0
  {
    mid := Cover(t, n, m, 2 * m - 2);
    var x, y := Contents(t, n, 2 * m - 2), Contents(t, n, 2 * m - 1);
    front := x + y;
    CoverSnoc(t, n, m, 2 * m);
    CoverSnoc(t, n, m, 2 * m - 1);
    assert Cover(t, n, m, 2 * m) == mid + x + y;
  }

  lemma FoldRotate<T(!new)>(f: (T, T) -> T, a: seq<T>, b: seq<T>)
    requires Assoc(f) && Comm(f) && |a| > 0
    ensures Fold(f, a + b) == Fold(f, b + a)
  {
    if |b| == 0 {
      assert a + b == b + a;
    } else {
      FoldAppend(f, a, b);
      FoldAppend(f, b, a);
      assert CommAt(f, Fold(f, a), Fold(f, b));
    }
  }

  /** Moving the frontier up does not change its fold. */
  lemma FrontierFold<T(!new)>(t: seq<T>, n: nat, f: (T, T) -> T, m: int)
    requires |t| == 2 * n && 2 <= m <= n && Assoc(f) && Comm(f)
    ensures Fold(f, Cover(t, n, m, 2 * m)) == Fold(f, Cover(t, n, m - 1, 2 * (m - 1)))
  {
    var front, mid := FrontierStep(t, n, m);
    FoldRotate(f, front, mid);
  }

  /** Every frontier [m, 2m) folds to what slot 1 folds, for an associative and commutative combiner. */
  lemma {:induction false} RootFolds<T(!new)>(t: seq<T>, n: nat, f: (T, T) -> T, m: int)
    requires |t| == 2 * n && 1 <= m <= n && Assoc(f) && Comm(f)
    ensures Fold(f, Cover(t, n, m, 2 * m)) == Fold(f, Contents(t, n, 1))
  {
    if m == 1 {
      CoverOne(t, n, 1);
    } else {
      RootFolds(t, n, f, m - 1);
      FrontierFold(t, n, f, m);
    }
  }

  /** Folding in the slot under the left cursor and advancing it leaves the result unchanged. */
  lemma TakeLeft<T(!new)>(t: seq<T>, n: nat, f: (T, T) -> T, lo: int, hi: int, acc: Option<T>)
    requires Heap(t, n, f) && Assoc(f) && 1 <= lo < hi <= 2 * n
    ensures Absorb(f, Some(Join(f, acc, t[lo])), Cover(t, n, lo + 1, hi)) == Absorb(f, acc, Cover(t, n, lo, hi))
  {
    NodeValue(t, n, f, lo);
    AbsorbAppend(f, acc, Contents(t, n, lo), Cover(t, n, lo + 1, hi));
  }

  /** Stepping the right cursor back and folding in its slot leaves the result unchanged. */
  lemma TakeRight<T(!new)>(t: seq<T>, n: nat, f: (T, T) -> T, lo: int, hi: int, acc: Option<T>)
    requires Heap(t, n, f) && Assoc(f) && Comm(f) && 1 <= lo < hi <= 2 * n
    ensures Absorb(f, Some(Join(f, acc, t[hi - 1])), Cover(t, n, lo, hi - 1)) == Absorb(f, acc, Cover(t, n, lo, hi))
  {
    CoverSnoc(t, n, lo, hi);
    NodeValue(t, n, f, hi - 1);
    AbsorbLast(f, acc, Cover(t, n, lo, hi - 1), Contents(t, n, hi - 1));
  }

  /** The accumulator after one round: the slot of an odd left cursor, then the slot left of an odd right cursor. */
  ghost function RoundAcc<T>(t: seq<T>, f: (T, T) -> T, lo: int, hi: int, acc: Option<T>): Option<T>
    requires 0 <= lo < hi <= |t|
  {
    var acc1 := if lo % 2 == 1 then Some(Join(f, acc, t[lo])) else acc;
    if hi % 2 == 1 then Some(Join(f, acc1, t[hi - 1])) else acc1
  }

  /**
   * The query's walk from the cursors lo and hi (hi exclusive) up the tree:
   * an odd left cursor folds in its slot and steps right, an odd right cursor
   * steps left and folds in its slot, then both move to their parents.
   */
  ghost function Walk<T>(t: seq<T>, n: nat, f: (T, T) -> T, lo: int, hi: int, acc: Option<T>): Option<T>
    requires |t| == 2 * n && 1 <= lo <= hi <= 2 * n
    decreases hi
  {
    if lo >= hi then acc
    else Walk(t, n, f, (lo + lo % 2) / 2, (hi - hi % 2) / 2, RoundAcc(t, f, lo, hi, acc))
  }

  /** The cursor arithmetic of one round: after the odd steps both cursors are even and still ordered. */
  lemma Cursors(lo: int, hi: int)
    requires 1 <= lo < hi
    ensures (lo + lo % 2) % 2 == 0 && (hi - hi % 2) % 2 == 0
    ensures 2 <= lo + lo % 2 <= hi - hi % 2
    ensures hi % 2 == 1 ==> lo + lo % 2 < hi
    ensures 1 <= (lo + lo % 2) / 2 <= (hi - hi % 2) / 2
  {
  }

  /** One round moves the covered leaves it passes over into the accumulator. */
  lemma Round<T(!new)>(t: seq<T>, n: nat, f: (T, T) -> T, lo: int, hi: int, acc: Option<T>) returns (lo2: int, hi2: int)
    requires Heap(t, n, f) && Assoc(f) && Comm(f) && 1 <= lo < hi <= 2 * n
    ensures lo2 == (lo + lo % 2) / 2 && hi2 == (hi - hi % 2) / 2 && 1 <= lo2 <= hi2
    ensures Absorb(f, RoundAcc(t, f, lo, hi, acc), Cover(t, n, lo2, hi2)) == Absorb(f, acc, Cover(t, n, lo, hi))
  {
    Cursors(lo, hi);
    var total := Absorb(f, acc, Cover(t, n, lo, hi));
    var lo1, acc1 := lo + lo % 2, if lo % 2 == 1 then Some(Join(f, acc, t[lo])) else acc;
    if lo % 2 == 1 {
      TakeLeft(t, n, f, lo, hi, acc);
    }
    assert Absorb(f, acc1, Cover(t, n, lo1, hi)) == total;
    var hi1, acc2 := hi - hi % 2, if hi % 2 == 1 then Some(Join(f, acc1, t[hi - 1])) else acc1;
    if hi % 2 == 1 {
      TakeRight(t, n, f, lo1, hi, acc1);
    }
    assert Absorb(f, acc2, Cover(t, n, lo1, hi1)) == total;
    assert acc2 == RoundAcc(t, f, lo, hi, acc);
    CoverHalve(t, n, lo1, hi1);
    lo2, hi2 := lo1 / 2, hi1 / 2;
  }

  /** One step of the walk, with the cursors it moves to. */
  lemma WalkStep<T>(t: seq<T>, n: nat, f: (T, T) -> T, lo: int, hi: int, acc: Option<T>) returns (lo2: int, hi2: int)
    requires |t| == 2 * n && 1 <= lo < hi <= 2 * n
    ensures lo2 == (lo + lo % 2) / 2 && hi2 == (hi - hi % 2) / 2 && 1 <= lo2 <= hi2 < hi
    ensures Walk(t, n, f, lo, hi, acc) == Walk(t, n, f, lo2, hi2, RoundAcc(t, f, lo, hi, acc))
  {
    Cursors(lo, hi);
    lo2, hi2 := (lo + lo % 2) / 2, (hi - hi % 2) / 2;
  }

  /** The walk folds onto the accumulator exactly the leaves under slots lo..hi-1. */
  lemma {:induction false} WalkCover<T(!new)>(t: seq<T>, n: nat, f: (T, T) -> T, lo: int, hi: int, acc: Option<T>)
    requires Heap(t, n, f) && Assoc(f) && Comm(f) && 1 <= lo <= hi <= 2 * n
    ensures Walk(t, n, f, lo, hi, acc) == Absorb(f, acc, Cover(t, n, lo, hi))
    decreases hi
  {
    if lo < hi {
      var lo2, hi2 := Round(t, n, f, lo, hi, acc);
      WalkCover(t, n, f, lo2, hi2, RoundAcc(t, f, lo, hi, acc));
    }
  }

  /** Started on the leaf slots [lo, hi), the walk yields the fold of those leaves. */
  lemma WalkFolds<T(!new)>(t: seq<T>, n: nat, f: (T, T) -> T, lo: int, hi: int)
    requires Heap(t, n, f) && Assoc(f) && Comm(f) && 1 <= lo && n <= lo < hi <= 2 * n
    ensures Walk(t, n, f, lo, hi, None) == Some(Fold(f, t[lo..hi]))
  {
    WalkCover(t, n, f, lo, hi, None);
    CoverLeaves(t, n, lo, hi);
  }

  /** Writing slot i its children's combination extends the combined suffix of the build down to i. */
  lemma BuildStep<T>(t: seq<T>, u: seq<T>, f: (T, T) -> T, size: nat, i: int)
    requires |t| == 2 * size && 1 <= i < size && u == t[i := f(t[2 * i], t[2 * i + 1])]
    requires forall k :: 1 <= k < size && i < k ==> Combined(t, f, k)
    ensures forall k :: 1 <= k < size && i - 1 < k ==> Combined(u, f, k)
  {
    forall k | 1 <= k < size && i - 1 < k
      ensures Combined(u, f, k)
    {
      if k != i {
        assert Combined(t, f, k);
      }
    }
  }

  /**
   * Writing slot p can only break the combination at its parent p/2, provided
   * that, when p is internal, it receives its children's combination.
   */
  lemma Rewrite<T>(t: seq<T>, u: seq<T>, f: (T, T) -> T, n: nat, p: int, v: T)
    requires |t| == 2 * n && 1 <= p < 2 * n && u == t[p := v]
    requires forall k :: 1 <= k < n && k != p ==> Combined(t, f, k)
    requires p < n ==> v == f(t[2 * p], t[2 * p + 1])
    ensures forall k :: 1 <= k < n && k != p / 2 ==> Combined(u, f, k)
  {
    forall k | 1 <= k < n && k != p / 2
      ensures Combined(u, f, k)
    {
      if k != p {
        assert Combined(t, f, k);
      }
    }
  }

  lemma SliceOfSuffix<T>(s: seq<T>, k: int, l: int, r: int)
    requires 0 <= k <= |s| && 0 <= l <= r <= |s| - k
    ensures s[k..][l..r] == s[k + l..k + r]
  {
  }

  class SegTreeIter<T(!new)> {
    const n: nat
    const combine: (T, T) -> T
    const tree: array<T>

    ghost predicate Valid()
      reads tree
    {
      tree.Length == 2 * n && Heap(tree[..], n, combine)
    }

    ghost function Leaves(): seq<T>
      reads tree
      requires Valid()
    {
      tree[n..]
    }

    /** The build from a container; the iterator-pair and (size, value) builds pass the same leaves. */
    constructor (xs: seq<T>, f: (T, T) -> T)
      ensures Valid() && fresh(tree)
      ensures n == |xs| && combine == f && Leaves() == xs
    {
      var size := |xs|;
      var a := new T[2 * size](k requires 0 <= k < 2 * size => xs[k % size]);
      var i := 2 * size - 1;
      while i >= size
        invariant size - 1 <= i <= 2 * size - 1
        invariant forall k :: i < k < 2 * size ==> a[k] == xs[k - size]
      {
        a[i] := xs[i - size];
        i := i - 1;
      }
      assert a[size..] == xs;
      i := size - 1;
      while i > 0
        invariant -1 <= i < size
        invariant a[size..] == xs
        invariant forall k :: 1 <= k < size && i < k ==> Combined(a[..], f, k)
      {
        ghost var before := a[..];
        a[i] := f(a[2 * i], a[2 * i + 1]);
        BuildStep(before, a[..], f, size, i);
        i := i - 1;
      }
      n, combine, tree := size, f, a;
    }

    /** The whole-range aggregate, read from slot 1. */
    method Top() returns (x: T)
      requires Valid() && n > 0 && Assoc(combine)
      requires Comm(combine) || n == Pow2(Log2(n))
      ensures x == Fold(combine, Leaves())
    {
      x := tree[1];
      ghost var t := tree[..];
      NodeValue(t, n, combine, 1);
      if n == Pow2(Log2(n)) {
        ContentsBlock(t, n, 1, Log2(n));
      } else {
        RootFolds(t, n, combine, n);
        CoverLeaves(t, n, n, 2 * n);
      }
      assert t[n..2 * n] == t[n..];
    }

    /** The aggregate of leaves l..r, walking two cursors up from the leaf level. */
    method Query(l: int, r: int) returns (x: T)
      requires Valid() && Assoc(combine) && Comm(combine)
      requires 0 <= l <= r < n
      ensures x == Fold(combine, Leaves()[l..r + 1])
    {
      ghost var t := tree[..];
      var lo, hi := l + n, r + 1 + n;
      WalkFolds(t, n, combine, lo, hi);
      SliceOfSuffix(t, n, l, r + 1);
      ghost var answer := Walk(t, n, combine, lo, hi, None);
      var acc: Option<T> := None;
      while lo < hi
        invariant 1 <= lo <= hi <= 2 * n
        invariant Walk(t, n, combine, lo, hi, acc) == answer
        decreases hi
      {
        ghost var lo', hi' := WalkStep(t, n, combine, lo, hi, acc);
        if lo % 2 == 1 {
          acc := Some(Join(combine, acc, tree[lo]));
          lo := lo + 1;
        }
        if hi % 2 == 1 {
          hi := hi - 1;
          acc := Some(Join(combine, acc, tree[hi]));
        }
        lo, hi := lo / 2, hi / 2;
        assert lo == lo' && hi == hi';
      }
      x := acc.value;
    }

    /** Range assignment: each leaf in [l, r] is set to v and its ancestors recomputed. */
    method Update(l: int, r: int, v: T)
      requires Valid() && Comm(combine)
      requires 0 <= l && r < n
      modifies tree
      ensures Valid()
      ensures Leaves() == Assign(old(Leaves()), l, r, v)
    {
      ghost var leaves := tree[n..];
      var i := l;
      while i <= r
        invariant i == l || l <= i <= r + 1
        invariant Valid()
        invariant tree[n..] == Assign(leaves, l, i - 1, v)
      {
        var j := i + n;
        ghost var start := tree[..];
        tree[j] := v;
        Rewrite(start, tree[..], combine, n, j, v);
        assert tree[n..] == Assign(leaves, l, i, v);
        Recompute(j);
        i := i + 1;
      }
      if l > r {
        assert Assign(leaves, l, i - 1, v) == Assign(leaves, l, r, v);
      }
    }

    /** The climb after a leaf write: every ancestor of slot j, bottom up, is recomputed from its two children. */
    method Recompute(j: int)
      requires tree.Length == 2 * n && 1 <= j < 2 * n && Comm(combine)
      requires forall k :: 1 <= k < n && k != j / 2 ==> Combined(tree[..], combine, k)
      modifies tree
      ensures Valid()
      ensures tree[n..] == old(tree[n..])
    {
      var c := j;
      while c > 1
        invariant 1 <= c < 2 * n
        invariant tree[n..] == old(tree[n..])
        invariant forall k :: 1 <= k < n && k != c / 2 ==> Combined(tree[..], combine, k)
        decreases c
      {
        var p := c / 2;
        assert CommAt(combine, tree[c], tree[Sibling(c)]);
        ghost var before := tree[..];
        tree[p] := combine(tree[c], tree[Sibling(c)]);
        Rewrite(before, tree[..], combine, n, p, tree[p]);
        c := p;
      }
    }
  }
}
