/**
 * IEEE 754 doubles where the Mantel tests need more than the reals. When a
 * lower triangle is constant its standard deviation is 0, `normalize`
 * divides by it, and the infinities and NaNs it writes flow on through the
 * sums of the statistics and the comparisons of `lower_bound`.
 */
module Floats {
  import opened Wrappers

  /** A double: a finite value, one of the two infinities, or NaN. */
  datatype Float = Finite(v: real) | PosInf | NegInf | Undefined

  /** A quotient of the rest of the model as a double: NaN stays NaN. */
  function FromDouble(d: Double): (r: Float)
    ensures r.Undefined? <==> d.NaN?
    ensures r.Finite? ==> d == Num(r.v)
  {
    if d.NaN? then Undefined else Finite(d.v)
  }

  /** `x / 0.0` for a finite `x`: the infinity of the sign of `x`, and NaN for `0 / 0`. */
  function DivZero(x: real): (r: Float)
    ensures !r.Finite?
    ensures r.Undefined? <==> x == 0.0
    ensures r.PosInf? <==> x > 0.0
  {
    if x > 0.0 then PosInf else if x < 0.0 then NegInf else Undefined
  }

  /** Below zero: a negative value or minus infinity. */
  predicate Negative(a: Float)
  {
    a.NegInf? || (a.Finite? && a.v < 0.0)
  }

  /** A finite zero. */
  predicate Zero(a: Float)
  {
    a.Finite? && a.v == 0.0
  }

  /** `a - b`: NaN absorbs, and the difference of two equal infinities is NaN. */
  function Sub(a: Float, b: Float): (r: Float)
    ensures r.Finite? <==> a.Finite? && b.Finite?
    ensures r.Finite? ==> r.v == a.v - b.v
    ensures a.Undefined? || b.Undefined? ==> r.Undefined?
  {
    if a.Undefined? || b.Undefined? then Undefined
    else if a.Finite? && b.Finite? then Finite(a.v - b.v)
    else if a == b then Undefined
    else if a.PosInf? || b.NegInf? then PosInf
    else NegInf
  }

  /**
   * `a * b`: NaN absorbs and an infinity times zero is NaN; any other
   * product with an infinity is the infinity of the product's sign.
   */
  function Mul(a: Float, b: Float): (r: Float)
    ensures r.Finite? <==> a.Finite? && b.Finite?
    ensures r.Finite? ==> r.v == a.v * b.v
    ensures a.Undefined? || b.Undefined? ==> r.Undefined?
    ensures !a.Finite? && Zero(b) ==> r.Undefined?
  {
    if a.Undefined? || b.Undefined? then Undefined
    else if a.Finite? && b.Finite? then Finite(a.v * b.v)
    else if Zero(a) || Zero(b) then Undefined
    else if Negative(a) == Negative(b) then PosInf
    else NegInf
  }

  /** `a + b`: NaN absorbs, and the sum of opposite infinities is NaN. */
  function Add(a: Float, b: Float): (r: Float)
    ensures r.Finite? <==> a.Finite? && b.Finite?
    ensures r.Finite? ==> r.v == a.v + b.v
    ensures a.Undefined? || b.Undefined? ==> r.Undefined?
  {
    if a.Undefined? || b.Undefined? then Undefined
    else if a.Finite? && b.Finite? then Finite(a.v + b.v)
    else if a.Finite? then b
    else if b.Finite? || a == b then a
    else Undefined
  }

  /** `x / c` for a positive count `c`: an infinity or NaN stays what it is. */
  function Over(x: Float, c: nat): (r: Float)
    requires c > 0
    ensures r.Finite? <==> x.Finite?
    ensures r.Finite? ==> r.v * (c as real) == x.v
    ensures !x.Finite? ==> r == x
  {
    if x.Finite? then Finite(x.v / c as real) else x
  }

  /** `x < y` as doubles compare: false whenever NaN takes part. */
  predicate Less(x: Float, y: Float)
  {
    match x
    case Undefined => false
    case PosInf => false
    case NegInf => y.Finite? || y.PosInf?
    case Finite(a) => y.PosInf? || (y.Finite? && a < y.v)
  }

  // ---------------------------------------------------------------------------
  // Values that no comparison puts below anything

  /** Plus infinity or NaN: `x < y` is false for every `y`. */
  predicate Huge(x: Float)
  {
    x.PosInf? || x.Undefined?
  }

  /** Nothing is below a huge value and nothing is below NaN. */
  lemma NeverBelow(x: Float, y: Float)
    requires Huge(x) || y.Undefined?
    ensures !Less(x, y)
  {
  }

  /** The square of an infinity or of NaN is plus infinity or NaN. */
  lemma SquareOfNonFinite(x: Float)
    requires !x.Finite?
    ensures Huge(Mul(x, x))
  {
  }

  // ---------------------------------------------------------------------------
  // Sums over the pairs i < j, in doubles

  /** `acc` plus `f(i, j')` for `i < j' < j`, added one term at a time. */
  function RowFold(f: (nat, nat) -> Float, acc: Float, i: nat, j: nat): Float
  {
    if j <= i + 1 then acc else Add(RowFold(f, acc, i, j - 1), f(i, j - 1))
  }

  /** The running sum after the rows `i' < i` of the pairs `i' < j' < k`. */
  function PairFold(f: (nat, nat) -> Float, k: nat, i: nat): Float
  {
    if i == 0 then Finite(0.0) else RowFold(f, PairFold(f, k, i - 1), i - 1, k)
  }

  /**
   * The sum of `f(i, j)` over all pairs `i < j < k`, added into one
   * accumulator in the order of the loops `i < k - 1`, `i < j < k`.
   */
  function UpperSum(f: (nat, nat) -> Float, k: nat): Float
    requires k >= 1
  {
    PairFold(f, k, k - 1)
  }

  /** The nested accumulator loops over a term `f`, in doubles. */
  method AddPairs(f: (nat, nat) -> Float, k: nat) returns (dist: Float)
    requires k >= 1
    ensures dist == UpperSum(f, k)
  {
    dist := Finite(0.0);
    for i := 0 to k - 1
      invariant dist == PairFold(f, k, i)
    {
      for j := i + 1 to k
        invariant dist == RowFold(f, PairFold(f, k, i), i, j)
      {
        dist := Add(dist, f(i, j));
      }
    }
  }

  /** Adding huge terms to 0 or to a huge value leaves 0 when there are none, and a huge value otherwise. */
  lemma {:induction false} RowFoldHuge(f: (nat, nat) -> Float, acc: Float, k: nat, i: nat, j: nat)
    requires j <= k && forall a: nat, b: nat :: a < b < k ==> Huge(f(a, b))
    requires acc == Finite(0.0) || Huge(acc)
    ensures RowFold(f, acc, i, j) == acc || Huge(RowFold(f, acc, i, j))
    ensures j > i + 1 ==> Huge(RowFold(f, acc, i, j))
    decreases j
  {
    if j > i + 1 {
      RowFoldHuge(f, acc, k, i, j - 1);
      assert Huge(f(i, j - 1));
    }
  }

  lemma {:induction false} PairFoldHuge(f: (nat, nat) -> Float, k: nat, i: nat)
    requires i < k && forall a: nat, b: nat :: a < b < k ==> Huge(f(a, b))
    ensures PairFold(f, k, i) == Finite(0.0) || Huge(PairFold(f, k, i))
    ensures i > 0 ==> Huge(PairFold(f, k, i))
  {
    if i > 0 {
      PairFoldHuge(f, k, i - 1);
      RowFoldHuge(f, PairFold(f, k, i - 1), k, i - 1, k);
    }
  }

  /** Sums of two terms that agree on every pair agree. */
  lemma {:induction false} RowFoldAgree(f: (nat, nat) -> Float, g: (nat, nat) -> Float, acc: Float, k: nat, i: nat, j: nat)
    requires j <= k && forall a: nat, b: nat :: a < b < k ==> f(a, b) == g(a, b)
    ensures RowFold(f, acc, i, j) == RowFold(g, acc, i, j)
    decreases j
  {
    if j > i + 1 {
      RowFoldAgree(f, g, acc, k, i, j - 1);
    }
  }

  lemma {:induction false} PairFoldAgree(f: (nat, nat) -> Float, g: (nat, nat) -> Float, k: nat, i: nat)
    requires forall a: nat, b: nat :: a < b < k ==> f(a, b) == g(a, b)
    ensures PairFold(f, k, i) == PairFold(g, k, i)
  {
    if i > 0 {
      PairFoldAgree(f, g, k, i - 1);
      RowFoldAgree(f, g, PairFold(f, k, i - 1), k, i - 1, k);
    }
  }

  /** With at least one pair, a sum of huge terms is huge. */
  lemma UpperSumHuge(f: (nat, nat) -> Float, k: nat)
    requires k >= 2 && forall a: nat, b: nat :: a < b < k ==> Huge(f(a, b))
    ensures Huge(UpperSum(f, k))
  {
    PairFoldHuge(f, k, k - 1);
  }

  /** The loops add the pair `(k - 2, k - 1)` last, so a NaN there makes the whole sum NaN. */
  lemma LastPairUndefined(f: (nat, nat) -> Float, k: nat)
    requires k >= 2 && f(k - 2, k - 1).Undefined?
    ensures UpperSum(f, k).Undefined?
  {
    var acc := PairFold(f, k, k - 2);
    assert RowFold(f, acc, k - 2, k) == Add(acc, f(k - 2, k - 1));
  }

  // ---------------------------------------------------------------------------
  // The p-value: the share of trials that `lower_bound` leaves at or past the observation

  /** `!(x < y)`: the trials that `lower_bound` does not pass over. */
  predicate NotBelow(x: Float, y: Float)
  {
    !Less(x, y)
  }

  /** The number of trials not below `orig`. */
  function CountNotBelow(a: seq<Float>, orig: Float): (c: nat)
    ensures c <= |a|
  {
    if |a| == 0 then 0 else (if NotBelow(a[0], orig) then 1 else 0) + CountNotBelow(a[1..], orig)
  }

  /** When no trial is below the observation, all of them count. */
  lemma {:induction false} AllNotBelow(a: seq<Float>, orig: Float)
    requires forall k :: 0 <= k < |a| ==> NotBelow(a[k], orig)
    ensures CountNotBelow(a, orig) == |a|
  {
    if |a| > 0 {
      AllNotBelow(a[1..], orig);
    }
  }

  /**
   * The p-value of `mantel`: `(end - lower_bound(orig)) / size`, the share of
   * trials not below the observation; 0/0 without trials.
   */
  function Share(trials: seq<Float>, orig: Float): (p: Double)
    ensures p.NaN? <==> |trials| == 0
    ensures p.Num? ==> 0.0 <= p.v <= 1.0 && p.v * (|trials| as real) == CountNotBelow(trials, orig) as real
  {
    QuotientIsShare(CountNotBelow(trials, orig) as real, |trials|);
    Quotient(CountNotBelow(trials, orig) as real, |trials|)
  }

  /**
   * `std::lower_bound` and the division when no trial is below the
   * observation: the bound is the first trial, whatever order `std::sort`
   * left, and the share is 1.
   */
  method FirstBound(montecarlo: seq<Float>, orig: Float) returns (p: Double)
    requires forall k :: 0 <= k < |montecarlo| ==> NotBelow(montecarlo[k], orig)
    ensures p == Share(montecarlo, orig)
  {
    var it := 0;
    AllNotBelow(montecarlo, orig);
    p := Quotient((|montecarlo| - it) as real, |montecarlo|);
  }

  /** When no trial is below the observation, every trial counts and the share is 1. */
  lemma ShareOfOne(trials: seq<Float>, orig: Float)
    requires |trials| >= 1 && forall k :: 0 <= k < |trials| ==> NotBelow(trials[k], orig)
    ensures Share(trials, orig) == Num(1.0)
  {
    AllNotBelow(trials, orig);
  }
}
