/** Failure-compatible result types shared by every module of the model. */
module Wrappers {

  datatype Option<+T> = None | Some(value: T)

  /** The outcome of an operation that the program ends with `errx`/`err` on failure. */
  datatype Result<+T, +E> = Ok(value: T) | Err(error: E)

  /**
   * A C `double` as the model sees it: an exact real, or the NaN that IEEE
   * arithmetic produces for 0/0 when a pair or quartet count is zero.
   */
  datatype Double = Num(v: real) | NaN

  /**
   * The quotient `sum / count` of a double by a count. The model only divides
   * sums over an empty range (which are 0) by a zero count, so 0/0 is the only
   * non-finite case that arises.
   */
  function Quotient(sum: real, count: nat): (q: Double)
    requires count == 0 ==> sum == 0.0
    ensures q.NaN? <==> count == 0
    ensures q.Num? ==> q.v * (count as real) == sum
  {
    if count == 0 then NaN else Num(sum / count as real)
  }

  /** A sum that is not negative gives a quotient that is not negative. */
  lemma QuotientNonNegative(sum: real, count: nat)
    requires count == 0 ==> sum == 0.0
    requires sum >= 0.0
    ensures Quotient(sum, count).Num? ==> Quotient(sum, count).v >= 0.0
  {
    if count > 0 {
      var c := count as real;
      assert sum / c >= 0.0;
    }
  }

  /** A share `sum / count` of a part in a whole lies in `[0, 1]`. */
  lemma QuotientIsShare(sum: real, count: nat)
    requires 0.0 <= sum <= count as real
    ensures var q := Quotient(sum, count);
      q.Num? ==> 0.0 <= q.v <= 1.0 && (sum == 0.0 ==> q.v == 0.0)
  {
  }
}
