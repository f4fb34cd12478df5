/**
 * The combiner contract shared by the three segment trees: a user-supplied
 * binary operation on the element type, the left-to-right fold it induces on a
 * non-empty range of leaves, the "absent-then-present" accumulator the queries
 * use instead of an identity element, and range assignment on the leaf
 * sequence (the abstract effect of every update).
 */
module Folds {

  datatype Option<T> = None | Some(value: T)

  /*
   * The laws are stated through AssocAt and CommAt so that the solver uses an
   * instance only where a proof names it; left to themselves the two laws
   * rewrite every combination of the same leaves into all its other shapes.
   */
  ghost predicate AssocAt<T>(f: (T, T) -> T, a: T, b: T, c: T) {
    f(f(a, b), c) == f(a, f(b, c))
  }

  ghost predicate CommAt<T>(f: (T, T) -> T, a: T, b: T) {
    f(a, b) == f(b, a)
  }

  ghost predicate Assoc<T(!new)>(f: (T, T) -> T) {
    forall a, b, c :: AssocAt(f, a, b, c)
  }

  ghost predicate Comm<T(!new)>(f: (T, T) -> T) {
    forall a, b :: CommAt(f, a, b)
  }

  /** The left-to-right fold f(...f(f(s[0], s[1]), s[2])..., s[|s|-1]). */
  function Fold<T>(f: (T, T) -> T, s: seq<T>): T
    requires |s| > 0
    decreases |s|
  {
    if |s| == 1 then s[0] else f(Fold(f, s[..|s| - 1]), s[|s| - 1])
  }

  /** The default combiner of all three trees: pairwise maximum. */
  function Max(a: int, b: int): int {
    if a > b then a else b
  }

  /** Folding in one more value: the accumulator starts absent, takes the first value as it is. */
  function Join<T>(f: (T, T) -> T, acc: Option<T>, x: T): T {
    match acc
    case None => x
    case Some(a) => f(a, x)
  }

  /** The accumulator after folding in a whole (possibly empty) run of leaves. */
  function Absorb<T>(f: (T, T) -> T, acc: Option<T>, s: seq<T>): Option<T> {
    if |s| == 0 then acc else Some(Join(f, acc, Fold(f, s)))
  }

  /** The part of `s` whose positions lie in the inclusive range [a, b]. */
  function Window<T>(s: seq<T>, a: int, b: int): seq<T> {
    var lo := if a < 0 then 0 else a;
    var hi := if b + 1 > |s| then |s| else b + 1;
    if lo < hi then s[lo..hi] else []
  }

  /** The leaves of the node covering [st, en] whose positions also lie in the query range [l, r]. */
  function Part<T>(xs: seq<T>, st: int, en: int, l: int, r: int): seq<T>
    requires 0 <= st <= en < |xs|
  {
    Window(xs[st..en + 1], l - st, r - st)
  }

  /** Range assignment: every position in [l, r] becomes v, the others keep their value. */
  function Assign<T>(xs: seq<T>, l: int, r: int, v: T): seq<T> {
    seq(|xs|, i requires 0 <= i < |xs| => if l <= i <= r then v else xs[i])
  }

  /** The leaves of a tree built from a (size, value) pair. */
  function Filled<T>(size: nat, value: T): seq<T> {
    seq(size, _ => value)
  }

  lemma {:induction false} FoldAppend<T(!new)>(f: (T, T) -> T, s: seq<T>, t: seq<T>)
    requires Assoc(f) && |s| > 0 && |t| > 0
    ensures Fold(f, s + t) == f(Fold(f, s), Fold(f, t))
    decreases |t|
  {
    if |t| == 1 {
      assert (s + t)[..|s + t| - 1] == s;
    } else {
      var t' := t[..|t| - 1];
      assert (s + t)[..|s + t| - 1] == s + t';
      FoldAppend(f, s, t');
      assert AssocAt(f, Fold(f, s), Fold(f, t'), t[|t| - 1]);
    }
  }

  /** Absorbing two adjacent runs one after the other is absorbing their concatenation. */
  lemma AbsorbAppend<T(!new)>(f: (T, T) -> T, acc: Option<T>, s: seq<T>, t: seq<T>)
    requires Assoc(f)
    ensures Absorb(f, Absorb(f, acc, s), t) == Absorb(f, acc, s + t)
  {
    if |s| == 0 {
      assert s + t == t;
    } else if |t| == 0 {
      assert s + t == s;
    } else {
      FoldAppend(f, s, t);
      if acc.Some? {
        assert AssocAt(f, acc.value, Fold(f, s), Fold(f, t));
      }
    }
  }

  /** With an associative and commutative combiner, the last run of leaves may be folded in first. */
  lemma AbsorbLast<T(!new)>(f: (T, T) -> T, acc: Option<T>, s: seq<T>, c: seq<T>)
    requires Assoc(f) && Comm(f) && |c| > 0
    ensures Absorb(f, Absorb(f, acc, c), s) == Absorb(f, acc, s + c)
  {
    if |s| == 0 {
      assert s + c == c;
    } else {
      FoldAppend(f, s, c);
      assert CommAt(f, Fold(f, s), Fold(f, c));
      if acc.Some? {
        assert AssocAt(f, acc.value, Fold(f, c), Fold(f, s));
      }
    }
  }

  /** Splitting a sequence splits every window of it at the same place. */
  lemma WindowSplit<T>(s: seq<T>, t: seq<T>, a: int, b: int)
    ensures Window(s + t, a, b) == Window(s, a, b) + Window(t, a - |s|, b - |s|)
  {
    var u := s + t;
    var lo := if a < 0 then 0 else a;
    var hi := if b + 1 > |u| then |u| else b + 1;
    if lo < hi {
      if hi <= |s| {
        assert u[lo..hi] == s[lo..hi];
      } else if lo >= |s| {
        assert u[lo..hi] == t[lo - |s|..hi - |s|];
      } else {
        assert Window(s, a, b) == s[lo..];
        assert Window(t, a - |s|, b - |s|) == t[..hi - |s|];
        assert u[lo..hi] == s[lo..] + t[..hi - |s|];
      }
    }
  }

  /** A node range disjoint from the query range contributes nothing; one inside it contributes all its leaves. */
  lemma PartEnds<T>(xs: seq<T>, st: int, en: int, l: int, r: int)
    requires 0 <= st <= en < |xs|
    ensures r < st || en < l ==> Part(xs, st, en, l, r) == []
    ensures l <= st && en <= r ==> Part(xs, st, en, l, r) == xs[st..en + 1]
  {
  }

  /** Splitting a node range at its midpoint splits its part of the query range there too. */
  lemma PartSplit<T>(xs: seq<T>, st: int, m: int, en: int, l: int, r: int)
    requires 0 <= st <= m < en < |xs|
    ensures Part(xs, st, en, l, r) == Part(xs, st, m, l, r) + Part(xs, m + 1, en, l, r)
  {
    assert xs[st..en + 1] == xs[st..m + 1] + xs[m + 1..en + 1];
    WindowSplit(xs[st..m + 1], xs[m + 1..en + 1], l - st, r - st);
  }

  /**
   * At the root, the part of the query range is its window of the leaves.
   * That window is non-empty exactly when [l, r] meets [0, |xs|), and is the
   * queried slice itself when [l, r] lies inside.
   */
  lemma PartRoot<T>(xs: seq<T>, l: int, r: int)
    requires |xs| > 0
    ensures Part(xs, 0, |xs| - 1, l, r) == Window(xs, l, r)
    ensures |Window(xs, l, r)| > 0 <==> l <= r && l < |xs| && 0 <= r
    ensures 0 <= l <= r < |xs| ==> Window(xs, l, r) == xs[l..r + 1]
  {
    assert xs[0..|xs|] == xs;
  }

  /** Absorbing the left half's part and then the right half's is absorbing the whole node's part. */
  lemma SplitQuery<T(!new)>(f: (T, T) -> T, xs: seq<T>, st: int, m: int, en: int, l: int, r: int, acc: Option<T>)
    requires Assoc(f) && 0 <= st <= m < en < |xs|
    ensures Absorb(f, Absorb(f, acc, Part(xs, st, m, l, r)), Part(xs, m + 1, en, l, r)) == Absorb(f, acc, Part(xs, st, en, l, r))
  {
    PartSplit(xs, st, m, en, l, r);
    AbsorbAppend(f, acc, Part(xs, st, m, l, r), Part(xs, m + 1, en, l, r));
  }

  /** A point update is the range assignment of a one-element range. */
  lemma AssignPoint<T>(xs: seq<T>, i: int, v: T)
    requires 0 <= i < |xs|
    ensures Assign(xs, i, i, v) == xs[i := v]
  {
  }

  /** Right after a range assignment, every position of the range holds v. */
  lemma AssignedRange<T>(xs: seq<T>, l: int, r: int, v: T)
    requires 0 <= l <= r < |xs|
    ensures Assign(xs, l, r, v)[l..r + 1] == Filled(r - l + 1, v)
  {
  }

  /** Folding the default combiner yields the largest element of the range. */
  lemma {:induction false} FoldMaxIsMaximum(s: seq<int>)
    requires |s| > 0
    ensures Fold(Max, s) in s
    ensures forall i :: 0 <= i < |s| ==> s[i] <= Fold(Max, s)
    decreases |s|
  {
    if |s| > 1 {
      var s' := s[..|s| - 1];
      FoldMaxIsMaximum(s');
      assert s == s' + [s[|s| - 1]];
    }
  }

  lemma MaxIsAssocComm()
    ensures Assoc(Max) && Comm(Max)
  {
  }

  /** After assigning v to a range, a max query over it returns v. */
  lemma {:induction false} FoldMaxFilled(k: nat, v: int)
    requires k > 0
    ensures Fold(Max, Filled(k, v)) == v
  {
    if k > 1 {
      assert Filled(k, v)[..k - 1] == Filled(k - 1, v);
      FoldMaxFilled(k - 1, v);
    }
  }

  /** After assigning v to a range, a sum query over it returns v times the range length. */
  lemma {:induction false} FoldSumFilled(k: nat, v: int)
    requires k > 0
    ensures Fold((a: int, b: int) => a + b, Filled(k, v)) == k * v
  {
    if k > 1 {
      assert Filled(k, v)[..k - 1] == Filled(k - 1, v);
      FoldSumFilled(k - 1, v);
    }
  }
}
