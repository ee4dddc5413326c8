/** The per-element arithmetic of the Eltwise layer: how one output element is
    obtained from the elements at the same channel and position of operands
    0, 1, ..., N-1. Elements are exact integers standing in for float32. */
module Reduce {

  /** The reductions the layer implements; a SUM with a non-zero coefficient
      count is the weighted sum. */
  datatype Reduction = Prod | Sum | WeightedSum(coeffs: seq<int>) | Max

  /** `max(a, b)` as the layer spells it: `a` when `a > b`, otherwise `b`. */
  function Max2(a: int, b: int): (m: int)
    ensures a <= m && b <= m
    ensures m == a || m == b
  {
    if a > b then a else b
  }

  /** A weighted sum reads one coefficient per operand, at the operand's own
      position; the other reductions fold any number of operands. */
  predicate Fits(red: Reduction, n: nat) {
    red.WeightedSum? ==> n <= |red.coeffs|
  }

  /** The seed step, combining operands 0 and 1 (`coeffs[0]` and `coeffs[1]`
      for the weighted sum): the reduction of the first two operands. */
  function Seed(red: Reduction, x0: int, x1: int): (r: int)
    requires Fits(red, 2)
    ensures red == Prod ==> r == Product([x0, x1])
    ensures red == Sum ==> r == Total([x0, x1])
    ensures red.WeightedSum? ==> r == Weighted([x0, x1], red.coeffs)
    ensures red == Max ==> IsMaximum(r, [x0, x1])
  {
    PairForms(x0, x1);
    match red
    case Prod => x0 * x1
    case Sum => x0 + x1
    case WeightedSum(c) => WeightedTwo(x0, x1, c); x0 * c[0] + x1 * c[1]
    case Max =>
      var m := Max2(x0, x1);
      assert [x0, x1][0] == x0 && [x0, x1][1] == x1;
      m
  }

  /** The update step that folds operand `b` (b >= 2) into the accumulator:
      the reduction of the accumulator and the operand, the operand weighted
      by the coefficient at its own position `b`. */
  function Step(red: Reduction, acc: int, x: int, b: nat): (r: int)
    requires Fits(red, b + 1)
    ensures red == Prod ==> r == Product([acc, x])
    ensures red == Sum ==> r == Total([acc, x])
    ensures red.WeightedSum? ==> r == acc + Weighted([x], red.coeffs[b..])
    ensures red == Max ==> IsMaximum(r, [acc, x])
  {
    PairForms(acc, x);
    match red
    case Prod => acc * x
    case Sum => acc + x
    case WeightedSum(c) => WeightedOne(x, c[b..]); acc + x * c[b]
    case Max =>
      var m := Max2(acc, x);
      assert [acc, x][0] == acc && [acc, x][1] == x;
      m
  }

  /** One output element: the seed of `xs[0], xs[1]` followed by one update
      per later operand, in operand order. The `FoldIs` lemmas below give its
      closed form for each reduction. */
  function Fold(red: Reduction, xs: seq<int>): int
    requires 2 <= |xs| && Fits(red, |xs|)
    decreases |xs|
  {
    if |xs| == 2 then Seed(red, xs[0], xs[1])
    else Step(red, Fold(red, xs[..|xs| - 1]), xs[|xs| - 1], |xs| - 1)
  }

  // Closed forms of the four reductions.

  /** The sum of all operands. */
  function Total(xs: seq<int>): int {
    if xs == [] then 0 else xs[0] + Total(xs[1..])
  }

  /** The product of all operands. */
  function Product(xs: seq<int>): int {
    if xs == [] then 1 else xs[0] * Product(xs[1..])
  }

  /** The sum of every operand weighted by the coefficient at its position. */
  function Weighted(xs: seq<int>, cs: seq<int>): int
    requires |xs| <= |cs|
  {
    if xs == [] then 0 else xs[0] * cs[0] + Weighted(xs[1..], cs[1..])
  }

  /** `m` is the largest operand. */
  predicate IsMaximum(m: int, xs: seq<int>) {
    && (forall b :: 0 <= b < |xs| ==> xs[b] <= m)
    && (exists b :: 0 <= b < |xs| && xs[b] == m)
  }

  lemma {:induction false} TotalSnoc(xs: seq<int>)
    requires xs != []
    ensures Total(xs) == Total(xs[..|xs| - 1]) + xs[|xs| - 1]
    decreases |xs|
  {
    if |xs| > 1 {
      TotalSnoc(xs[1..]);
      assert xs[1..][..|xs| - 2] == xs[..|xs| - 1][1..];
    }
  }

  lemma {:induction false} ProductSnoc(xs: seq<int>)
    requires xs != []
    ensures Product(xs) == Product(xs[..|xs| - 1]) * xs[|xs| - 1]
    decreases |xs|
  {
    if |xs| > 1 {
      var init, last := xs[..|xs| - 1], xs[|xs| - 1];
      ProductSnoc(xs[1..]);
      assert xs[1..][..|xs| - 2] == init[1..];
      calc {
        Product(xs);
        xs[0] * Product(xs[1..]);
        xs[0] * (Product(init[1..]) * last);
        { MulAssoc(xs[0], Product(init[1..]), last); }
        (xs[0] * Product(init[1..])) * last;
        Product(init) * last;
      }
    }
  }

  lemma MulAssoc(a: int, b: int, c: int)
    ensures a * (b * c) == (a * b) * c
  {
  }

  lemma {:induction false} WeightedSnoc(xs: seq<int>, cs: seq<int>)
    requires xs != [] && |xs| <= |cs|
    ensures Weighted(xs, cs) == Weighted(xs[..|xs| - 1], cs) + xs[|xs| - 1] * cs[|xs| - 1]
    decreases |xs|
  {
    if |xs| > 1 {
      WeightedSnoc(xs[1..], cs[1..]);
      assert xs[1..][..|xs| - 2] == xs[..|xs| - 1][1..];
    }
  }

  /** The closed forms of two operands. */
  lemma PairForms(a: int, b: int)
    ensures Product([a, b]) == a * b && Total([a, b]) == a + b
  {
    assert [a, b][1..] == [b] && [b][1..] == [];
    assert Product([b]) == b && Total([b]) == b;
  }

  /** One operand weighted by the first coefficient. */
  lemma WeightedOne(x: int, c: seq<int>)
    requires 1 <= |c|
    ensures Weighted([x], c) == x * c[0]
  {
    assert [x][1..] == [];
  }

  /** Two operands weighted by the first two coefficients. */
  lemma WeightedTwo(a: int, b: int, c: seq<int>)
    requires 2 <= |c|
    ensures Weighted([a, b], c) == a * c[0] + b * c[1]
  {
    assert [a, b][1..] == [b];
    WeightedOne(b, c[1..]);
  }

  /** PROD folds to the product of all operands. */
  lemma {:induction false} FoldIsProduct(xs: seq<int>)
    requires 2 <= |xs|
    ensures Fold(Prod, xs) == Product(xs)
    decreases |xs|
  {
    ProductSnoc(xs);
    if |xs| == 2 {
      ProductSnoc(xs[..1]);
    } else {
      FoldIsProduct(xs[..|xs| - 1]);
    }
  }

  /** SUM without coefficients folds to the sum of all operands. */
  lemma {:induction false} FoldIsTotal(xs: seq<int>)
    requires 2 <= |xs|
    ensures Fold(Sum, xs) == Total(xs)
    decreases |xs|
  {
    TotalSnoc(xs);
    if |xs| == 2 {
      TotalSnoc(xs[..1]);
    } else {
      FoldIsTotal(xs[..|xs| - 1]);
    }
  }

  /** The weighted SUM folds to the sum of `xs[b] * cs[b]` over all operands. */
  lemma {:induction false} FoldIsWeighted(xs: seq<int>, cs: seq<int>)
    requires 2 <= |xs| <= |cs|
    ensures Fold(WeightedSum(cs), xs) == Weighted(xs, cs)
    decreases |xs|
  {
    WeightedSnoc(xs, cs);
    if |xs| == 2 {
      WeightedSnoc(xs[..1], cs);
    } else {
      FoldIsWeighted(xs[..|xs| - 1], cs);
    }
  }

  /** MAX folds to the largest operand. */
  lemma {:induction false} FoldIsMaximum(xs: seq<int>)
    requires 2 <= |xs|
    ensures IsMaximum(Fold(Max, xs), xs)
    decreases |xs|
  {
    var m := Fold(Max, xs);
    if |xs| == 2 {
      assert xs[0] <= m && xs[1] <= m;
      if m == xs[0] { assert xs[0] == m; } else { assert xs[1] == m; }
    } else {
      var init := xs[..|xs| - 1];
      FoldIsMaximum(init);
      var b :| 0 <= b < |init| && init[b] == Fold(Max, init);
      assert forall k :: 0 <= k < |init| ==> xs[k] == init[k];
      if m == xs[|xs| - 1] {
        assert xs[|xs| - 1] == m;
      } else {
        assert xs[b] == m;
      }
    }
  }
}
