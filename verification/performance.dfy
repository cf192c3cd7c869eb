/** Summary figures of a value trajectory: total return, annualized return
    (behind a zero-span guard), daily simple returns and the Sharpe ratio
    (behind a zero-risk guard). Fractional powers and square roots are not
    part of Dafny's `real`, so they are passed in as functions. */
module Performance {
  import opened Optional

  /** Trading days per year, used to annualize the Sharpe ratio. */
  const TradingDays: real := 252.0

  /** Calendar days per year, used to turn a span of days into years. */
  const DaysPerYear: real := 365.25

  /** `(last - first) / first * 100`: the percentage gained from the first to
      the last value. */
  function TotalReturn(v: seq<real>): (r: real)
    requires |v| > 0 && v[0] != 0.0
    ensures r == (v[|v| - 1] / v[0] - 1.0) * 100.0
    ensures v[|v| - 1] == v[0] ==> r == 0.0
    ensures v[0] > 0.0 ==> (r > 0.0 <==> v[|v| - 1] > v[0]) && (r < 0.0 <==> v[|v| - 1] < v[0])
  {
    var first := v[0];
    var last := v[|v| - 1];
    assert first / first == 1.0;
    assert (last - first) / first == last / first - first / first;
    (last - first) / first * 100.0
  }

  /** The span in years. */
  function YearsElapsed(spanDays: int): (years: real)
    ensures years > 0.0 <==> spanDays > 0
    ensures years * DaysPerYear == spanDays as real
  {
    spanDays as real / DaysPerYear
  }

  /** `((1 + total/100) ** (1/years) - 1) * 100`, or 0 when the span is not
      positive; `pow` stands for Python's `**` on floats. */
  function AnnualizedReturn(totalReturnPct: real, spanDays: int, pow: (real, real) -> real): (r: real)
    ensures spanDays <= 0 ==> r == 0.0
    ensures spanDays > 0 ==> r + 100.0 == 100.0 * pow(1.0 + totalReturnPct / 100.0, DaysPerYear / spanDays as real)
  {
    var years := YearsElapsed(spanDays);
    if years > 0.0 then
      assert 1.0 / years == DaysPerYear / spanDays as real;
      (pow(1.0 + totalReturnPct / 100.0, 1.0 / years) - 1.0) * 100.0
    else 0.0
  }

  /** A flat total return annualizes to 0 over any span, for any `pow` that
      leaves 1 fixed. */
  lemma FlatAnnualizesToZero(spanDays: int, pow: (real, real) -> real)
    requires forall e :: pow(1.0, e) == 1.0
    ensures AnnualizedReturn(0.0, spanDays, pow) == 0.0
  {
  }

  /** `a` grown by the simple return `r`. */
  function Grow(a: real, r: real): real
  {
    a * (1.0 + r)
  }

  /** The simple return from `a` to `b`: `b / a - 1`. */
  function SimpleReturn(a: real, b: real): (r: real)
    requires a != 0.0
    ensures b == Grow(a, r)
  {
    var q := b / a;
    assert a * q == b;
    q - 1.0
  }

  /** `pct_change().dropna()`: the simple return from each value to the next. */
  function DailyReturns(v: seq<real>): (r: seq<real>)
    requires forall i :: 0 <= i < |v| - 1 ==> v[i] != 0.0
    ensures |r| == if |v| == 0 then 0 else |v| - 1
    ensures forall i :: 0 <= i < |r| ==> v[i + 1] == Grow(v[i], r[i])
  {
    if |v| <= 1 then []
    else
      var r := seq(|v| - 1, i requires 0 <= i < |v| - 1 => SimpleReturn(v[i], v[i + 1]));
      assert forall i :: 0 <= i < |r| ==> r[i] == SimpleReturn(v[i], v[i + 1]);
      r
  }

  /** The path a first value follows under a series of simple returns. */
  function Compound(first: real, r: seq<real>): (path: seq<real>)
    ensures |path| == |r| + 1 && path[0] == first
  {
    if |r| == 0 then [first]
    else
      var pre := Compound(first, r[..|r| - 1]);
      pre + [Grow(pre[|pre| - 1], r[|r| - 1])]
  }

  /** The daily returns lose nothing but the scale: compounding them from the
      first value rebuilds the whole trajectory. */
  lemma {:induction false} ReturnsCompound(v: seq<real>)
    requires |v| > 0
    requires forall i :: 0 <= i < |v| - 1 ==> v[i] != 0.0
    ensures Compound(v[0], DailyReturns(v)) == v
  {
    if |v| > 1 {
      var pre := v[..|v| - 1];
      var r := DailyReturns(v);
      ReturnsOfPrefix(v);
      ReturnsCompound(pre);
      assert Compound(v[0], r[..|r| - 1]) == pre;
      assert v == pre + [v[|v| - 1]];
    }
  }

  /** Dropping the last value drops the last return. */
  lemma ReturnsOfPrefix(v: seq<real>)
    requires |v| > 1
    requires forall i :: 0 <= i < |v| - 1 ==> v[i] != 0.0
    ensures DailyReturns(v[..|v| - 1]) == DailyReturns(v)[..|v| - 2]
  {
    var pre := v[..|v| - 1];
    var a := DailyReturns(pre);
    var b := DailyReturns(v)[..|v| - 2];
    assert |a| == |b|;
    forall i | 0 <= i < |a|
      ensures a[i] == b[i]
    {
      assert pre[i] == v[i] && pre[i + 1] == v[i + 1];
      ReturnUnique(v[i], v[i + 1], a[i], b[i]);
    }
  }

  /** Two values determine the return between them. */
  lemma ReturnUnique(a: real, b: real, r: real, s: real)
    requires a != 0.0 && b == Grow(a, r) && b == Grow(a, s)
    ensures r == s
  {
    assert a * (r - s) == 0.0;
  }

  /** Every daily return is 0 exactly when the trajectory is flat. */
  lemma FlatIffZeroReturns(v: seq<real>)
    requires |v| > 0
    requires forall i :: 0 <= i < |v| - 1 ==> v[i] != 0.0
    ensures (forall i :: 0 <= i < |v| - 1 ==> DailyReturns(v)[i] == 0.0) <==> Constant(v)
  {
    var r := DailyReturns(v);
    if forall i :: 0 <= i < |v| - 1 ==> r[i] == 0.0 {
      FlatByInduction(v, r, |v| - 1);
    }
    if Constant(v) {
      forall i | 0 <= i < |v| - 1
        ensures r[i] == 0.0
      {
        assert v[i + 1] == v[i] && v[i + 1] == Grow(v[i], r[i]);
        ReturnUnique(v[i], v[i + 1], r[i], 0.0);
      }
    }
  }

  lemma {:induction false} FlatByInduction(v: seq<real>, r: seq<real>, k: nat)
    requires k < |v| && |r| == |v| - 1
    requires forall i :: 0 <= i < |r| ==> v[i + 1] == Grow(v[i], r[i]) && r[i] == 0.0
    ensures forall i :: 0 <= i <= k ==> v[i] == v[0]
  {
    if k > 0 {
      FlatByInduction(v, r, k - 1);
      assert v[k] == Grow(v[k - 1], r[k - 1]);
    }
  }

  function Sum(r: seq<real>): real
  {
    if |r| == 0 then 0.0 else Sum(r[..|r| - 1]) + r[|r| - 1]
  }

  /** `mean()` of a non-empty series. */
  function Mean(r: seq<real>): real
    requires |r| > 0
  {
    Sum(r) / |r| as real
  }

  /** Sum of squared deviations from `m`. */
  function SquaredDeviations(r: seq<real>, m: real): real
  {
    if |r| == 0 then 0.0
    else SquaredDeviations(r[..|r| - 1], m) + Square(r[|r| - 1] - m)
  }

  /** pandas `std()` squared: the sample variance with one degree of freedom
      removed; it is NaN, here `None`, for fewer than two values. */
  function SampleVariance(r: seq<real>): (v: Option<real>)
    ensures v.None? <==> |r| < 2
  {
    if |r| < 2 then None
    else Some(SquaredDeviations(r, Mean(r)) / (|r| - 1) as real)
  }

  /** The series holds one value throughout. */
  predicate Constant(r: seq<real>)
  {
    forall i :: 0 <= i < |r| ==> r[i] == r[0]
  }

  lemma {:induction false} SquaredDeviationsZeroIff(r: seq<real>, m: real)
    ensures SquaredDeviations(r, m) >= 0.0
    ensures SquaredDeviations(r, m) == 0.0 <==> forall i :: 0 <= i < |r| ==> r[i] == m
  {
    if |r| > 0 {
      var pre := r[..|r| - 1];
      SquaredDeviationsZeroIff(pre, m);
      assert forall i :: 0 <= i < |pre| ==> pre[i] == r[i];
      assert (forall i :: 0 <= i < |r| ==> r[i] == m) <==> (forall i :: 0 <= i < |pre| ==> pre[i] == m) && r[|r| - 1] == m;
    }
  }

  /** `a * b`, with the sign rules the variance argument needs. */
  function Product(a: real, b: real): (p: real)
    ensures a > 0.0 && b > 0.0 ==> p > 0.0
    ensures a < 0.0 && b < 0.0 ==> p > 0.0
    ensures a == 0.0 || b == 0.0 ==> p == 0.0
  {
    a * b
  }

  /** `d ** 2`: never negative, and 0 only at 0. */
  function Square(d: real): (s: real)
    ensures s >= 0.0
    ensures s == 0.0 <==> d == 0.0
  {
    Product(d, d)
  }

  lemma {:induction false} SumConstant(r: seq<real>, c: real)
    requires forall i :: 0 <= i < |r| ==> r[i] == c
    ensures Sum(r) == |r| as real * c
  {
    if |r| > 0 {
      SumConstant(r[..|r| - 1], c);
    }
  }

  /** The sample variance is positive exactly when there are at least two
      values and they are not all equal; otherwise it is 0 or undefined. */
  lemma VariancePositiveIff(r: seq<real>)
    ensures (SampleVariance(r).Some? && SampleVariance(r).value > 0.0) <==> |r| >= 2 && !Constant(r)
  {
    if |r| >= 2 {
      var m := Mean(r);
      SquaredDeviationsZeroIff(r, m);
      var n := (|r| - 1) as real;
      assert SampleVariance(r).value == SquaredDeviations(r, m) / n;
      if Constant(r) {
        SumConstant(r, r[0]);
        assert m == r[0];
      } else {
        assert exists i :: 0 <= i < |r| && r[i] != r[0];
        assert !(forall i :: 0 <= i < |r| ==> r[i] == m);
      }
    }
  }

  /** What the Sharpe-ratio step reports. */
  datatype Sharpe = NoDailyReturns | NoRisk | Ratio(value: real)

  /** The annualized Sharpe ratio with a risk-free rate of 0:
      `mean * 252 / (std * sqrt(252))`, reported only when there are daily
      returns and their standard deviation is above 0 (NaN compares false).
      `sqrt` stands for the square root. */
  function SharpeRatio(r: seq<real>, sqrt: real -> real): (s: Sharpe)
    requires forall x :: x > 0.0 ==> sqrt(x) > 0.0
    ensures s.NoDailyReturns? <==> |r| == 0
    ensures s.Ratio? <==> |r| >= 2 && !Constant(r)
  {
    VariancePositiveIff(r);
    if |r| == 0 then NoDailyReturns
    else
      var variance := SampleVariance(r);
      if variance.Some? && variance.value > 0.0 then
        var std := sqrt(variance.value);
        Ratio(Mean(r) * TradingDays / (std * sqrt(TradingDays)))
      else NoRisk
  }

  /** A flat trajectory never gets a Sharpe ratio. */
  lemma FlatHasNoSharpe(v: seq<real>, sqrt: real -> real)
    requires |v| > 0
    requires forall i :: 0 <= i < |v| ==> v[i] == v[0] && v[i] != 0.0
    requires forall x :: x > 0.0 ==> sqrt(x) > 0.0
    ensures !SharpeRatio(DailyReturns(v), sqrt).Ratio?
  {
    FlatIffZeroReturns(v);
  }
}
