/** Shared value types and the small numeric helpers every component uses. */
module Common {

  /** A value that may be absent; `None` also stands for the NaN that pandas
      produces for a mean over nothing or a 0/0 division. */
  datatype Option<T> = None | Some(value: T)

  /** The failures the core can raise instead of returning a table. */
  datatype Error =
    | InsufficientStrikes   // the expected-move estimator's "Error" value
    | EmptyEarningsHistory  // indexing the first event of an empty history

  datatype Result<T> = Ok(value: T) | Err(error: Error)

  function Abs(x: real): (r: real)
    ensures r >= 0.0
    ensures r == x || r == -x
  {
    if x < 0.0 then -x else x
  }

  function Sum(xs: seq<real>): real
  {
    if xs == [] then 0.0 else Sum(xs[..|xs| - 1]) + xs[|xs| - 1]
  }

  /** pandas' `Series.mean()`: NaN (here `None`) when there is nothing to average. */
  function Mean(xs: seq<real>): (r: Option<real>)
    ensures r.Some? <==> |xs| > 0
  {
    if xs == [] then None else Some(Sum(xs) / (|xs| as real))
  }

  /** The sum of values that are all at least `lo` is at least `lo` per value. */
  lemma {:induction false} SumLowerBound(xs: seq<real>, lo: real)
    requires forall i :: 0 <= i < |xs| ==> lo <= xs[i]
    ensures lo * (|xs| as real) <= Sum(xs)
  {
    if xs != [] {
      SumLowerBound(xs[..|xs| - 1], lo);
    }
  }

  /** A mean is never below a lower bound of the values it averages. */
  lemma MeanLowerBound(xs: seq<real>, lo: real)
    requires |xs| > 0
    ensures (forall i :: 0 <= i < |xs| ==> lo <= xs[i]) ==> lo <= Mean(xs).value
  {
    if forall i :: 0 <= i < |xs| ==> lo <= xs[i] {
      SumLowerBound(xs, lo);
      var n := |xs| as real;
      assert lo * n <= Sum(xs);
      assert lo == (lo * n) / n;
    }
  }

  /** The mean of one value is that value. */
  lemma MeanOne(x: real)
    ensures Mean([x]) == Some(x)
  {
    assert [x][..0] == [];
    assert Sum([x]) == Sum([]) + x;
  }

  /** The mean of `n` values that averaged `mean`, once `x` is added. */
  function RunningMean(mean: real, n: nat, x: real): real
  {
    (mean * (n as real) + x) / ((n + 1) as real)
  }

  /** One more value `x` moves the mean of `n` values as a running mean. */
  lemma MeanSnoc(xs: seq<real>, x: real)
    requires |xs| > 0
    ensures Mean(xs + [x]).value == RunningMean(Mean(xs).value, |xs|, x)
  {
    var n := |xs| as real;
    var ys := xs + [x];
    assert ys[..|xs|] == xs;
    assert Sum(ys) == Sum(xs) + x;
    assert Mean(xs).value * n == Sum(xs);
    assert Mean(ys).value == Sum(ys) / ((|xs| + 1) as real);
  }

  /** The distinct elements of `s`, each at its first occurrence (Python's
      `set(...)` and pandas' `drop_duplicates()`). */
  function Dedup<T(==,!new)>(s: seq<T>): (r: seq<T>)
    ensures forall x :: x in r <==> x in s
    ensures forall i, j :: 0 <= i < j < |r| ==> r[i] != r[j]
    ensures |r| <= |s|
  {
    if s == [] then []
    else
      var d := Dedup(s[..|s| - 1]);
      var last := s[|s| - 1];
      assert s == s[..|s| - 1] + [last];
      if last in d then d else d + [last]
  }
}
