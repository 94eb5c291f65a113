/**
 * Exact stand-ins for the Armadillo statistics `buildHashes` starts from:
 * per-column `mean`, per-column `var` and `sum` of a row.
 */
module Stats {

  /** Every row of `data` has `width` columns. */
  predicate Rectangular(data: seq<seq<real>>, width: nat) {
    forall i :: 0 <= i < |data| ==> |data[i]| == width
  }

  /** Sum of column `d` over all rows. */
  function ColumnSum(data: seq<seq<real>>, d: nat): real
    requires forall i :: 0 <= i < |data| ==> d < |data[i]|
  {
    if data == [] then 0.0 else ColumnSum(data[..|data| - 1], d) + data[|data| - 1][d]
  }

  /** `mean(mat_data)`: one mean per column. */
  function Means(data: seq<seq<real>>): (r: seq<real>)
    requires |data| > 0 && Rectangular(data, |data[0]|)
    ensures |r| == |data[0]|
  {
    seq(|data[0]|, d requires 0 <= d < |data[0]| => ColumnSum(data, d) / (|data| as real))
  }

  /** Sum over all rows of the squared deviation of column `d` from `mu`. */
  function SquaredDeviations(data: seq<seq<real>>, d: nat, mu: real): real
    requires forall i :: 0 <= i < |data| ==> d < |data[i]|
  {
    if data == [] then 0.0
    else
      var x := data[|data| - 1][d];
      SquaredDeviations(data[..|data| - 1], d, mu) + (x - mu) * (x - mu)
  }

  /** `var(mat_data)`: the sample variance of each column, normalised by N-1, and 0 for one row. */
  function Variances(data: seq<seq<real>>): (r: seq<real>)
    requires |data| > 0 && Rectangular(data, |data[0]|)
    ensures |r| == |data[0]|
  {
    var mu := Means(data);
    seq(|data[0]|, d requires 0 <= d < |data[0]| =>
      if |data| == 1 then 0.0 else SquaredDeviations(data, d, mu[d]) / ((|data| - 1) as real))
  }

  /** `sum(v)`. */
  function Sum(v: seq<real>): real {
    if v == [] then 0.0 else Sum(v[..|v| - 1]) + v[|v| - 1]
  }

  predicate NonNegative(v: seq<real>) {
    forall i :: 0 <= i < |v| ==> v[i] >= 0.0
  }

  lemma {:induction false} SquaredDeviationsNonNegative(data: seq<seq<real>>, d: nat, mu: real)
    requires forall i :: 0 <= i < |data| ==> d < |data[i]|
    ensures SquaredDeviations(data, d, mu) >= 0.0
  {
    if data != [] {
      var x := data[|data| - 1][d];
      SquaredDeviationsNonNegative(data[..|data| - 1], d, mu);
      assert (x - mu) * (x - mu) >= 0.0;
    }
  }

  /** Every column variance is non-negative, so the weighted walk over them is well defined. */
  lemma VariancesNonNegative(data: seq<seq<real>>)
    requires |data| > 0 && Rectangular(data, |data[0]|)
    ensures |Variances(data)| == |data[0]|
    ensures NonNegative(Variances(data))
  {
    var v := Variances(data);
    forall d | 0 <= d < |v| ensures v[d] >= 0.0 {
      SquaredDeviationsNonNegative(data, d, Means(data)[d]);
    }
  }

  lemma {:induction false} SumNonNegative(v: seq<real>)
    requires NonNegative(v)
    ensures Sum(v) >= 0.0
  {
    if v != [] {
      SumNonNegative(v[..|v| - 1]);
    }
  }
}
