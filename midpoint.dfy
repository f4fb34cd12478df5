/**
 * The shape shared by the two top-down variants: node k covering [st, en]
 * has children 2k covering [st, mid] and 2k+1 covering [mid+1, en], with
 * mid = (st+en)/2, and the root is node 1 covering [0, n-1]. The array
 * variant stores node k in slot k of a buffer of 1 << (2 + floor(log2 n))
 * slots; this module proves every slot the shape uses lies below that size.
 */
module Midpoint {

  /** The split point of a range of at least two leaves. */
  function Mid(st: int, en: int): (m: int)
    requires 0 <= st < en
    ensures st <= m < en
    ensures 0 <= (m - st + 1) - (en - m) <= 1
  {
    (st + en) / 2
  }

  function Pow2(k: nat): (p: nat)
    ensures p >= 1
  {
    if k == 0 then 1 else 2 * Pow2(k - 1)
  }

  /** floor(log2 n), computed on integers. */
  function Log2(n: nat): (k: nat)
    requires n > 0
    ensures Pow2(k) <= n < Pow2(k + 1)
  {
    if n < 2 then 0 else 1 + Log2(n / 2)
  }

  /** The number of slots the array variant allocates: 1 << (2 + floor(log2 n)). */
  function BufferSize(n: nat): (size: nat)
    requires n > 0
    ensures 2 * n < size <= 4 * n
  {
    Pow2(2 + Log2(n))
  }

  /** Every node of the shape over [st, en] rooted at `node` has its slot, and its children's, below `size`. */
  ghost predicate Fits(size: int, st: int, en: int, node: int)
    requires 0 <= st <= en
    decreases en - st
  {
    1 <= node < size &&
    (st < en ==> Fits(size, st, Mid(st, en), 2 * node) && Fits(size, Mid(st, en) + 1, en, 2 * node + 1))
  }

  /** A node whose range has at most 2^k leaves and whose index satisfies (node+1)*2^k <= size fits. */
  lemma {:induction false} FitsBelow(size: int, st: int, en: int, node: int, k: nat)
    requires 0 <= st <= en && 1 <= node
    requires en - st + 1 <= Pow2(k) && (node + 1) * Pow2(k) <= size
    ensures Fits(size, st, en, node)
    decreases en - st
  {
    assert node + 1 <= (node + 1) * Pow2(k);
    if st < en {
      assert k >= 1;
      var m := Mid(st, en);
      var h := Pow2(k - 1);
      assert (2 * node + 2) * h == (node + 1) * Pow2(k);
      assert (2 * node + 1) * h <= (2 * node + 2) * h;
      FitsBelow(size, st, m, 2 * node, k - 1);
      FitsBelow(size, m + 1, en, 2 * node + 1, k - 1);
    }
  }

  /** Every index the array variant touches is below its buffer size. */
  lemma BufferFits(n: nat)
    requires n > 0
    ensures Fits(BufferSize(n), 0, n - 1, 1)
  {
    var k := Log2(n) + 1;
    assert BufferSize(n) == 2 * Pow2(k);
    FitsBelow(BufferSize(n), 0, n - 1, 1, k);
  }

  lemma {:induction false} Pow2Monotone(a: nat, b: nat)
    requires a <= b
    ensures Pow2(a) <= Pow2(b)
    decreases b
  {
    if a < b {
      Pow2Monotone(a, b - 1);
    }
  }

  /**
   * The buffer size 1 << (2 + floor(log2 n)) is below 2^31, so representable
   * in a 32-bit int, exactly when n < 2^29.
   */
  lemma BufferSizeInInt(n: nat)
    requires n > 0
    ensures BufferSize(n) < Pow2(31) <==> n < Pow2(29)
  {
    var k := Log2(n);
    if k < 29 {
      Pow2Monotone(k + 3, 31);
      Pow2Monotone(k + 1, 29);
    } else {
      Pow2Monotone(31, k + 2);
      Pow2Monotone(29, k);
    }
  }

  /** Slot j lies in the subtree rooted at slot a (j is a, or j's parent j/2 does). */
  ghost predicate InSubtree(a: int, j: int)
    decreases j
  {
    1 <= a <= j && (j == a || InSubtree(a, j / 2))
  }

  lemma {:induction false} ChildSubtree(a: int, c: int, j: int)
    requires a >= 1 && (c == 2 * a || c == 2 * a + 1)
    requires InSubtree(c, j)
    ensures InSubtree(a, j)
    decreases j
  {
    if j != c {
      ChildSubtree(a, c, j / 2);
    }
  }

  lemma {:induction false} SiblingSubtreesDisjoint(a: int, j: int)
    requires a >= 1
    ensures !(InSubtree(2 * a, j) && InSubtree(2 * a + 1, j))
    decreases j
  {
    if j > 2 * a + 1 {
      SiblingSubtreesDisjoint(a, j / 2);
    }
  }
}
