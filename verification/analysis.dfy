/** The ticker-entry screen's analysis: the gate on the summed amount, the
    composition of the portfolio, the buy-and-hold value series, its rebased
    trajectory with the benchmark index beside it, and the summary figures of
    both. */
module Analysis {
  import opened Optional
  import opened Portfolio
  import opened Series
  import opened Frames
  import opened Valuation
  import opened Performance

  /** One slice of the composition chart. */
  datatype Slice = Slice(name: string, amount: real)

  /** The holdings with an amount above 0, as name and amount, in dict order. */
  function Composition(p: Portfolio): (slices: seq<Slice>)
    requires AllPresent(p)
    ensures |slices| == |Analyzable(p)|
    ensures forall i :: 0 <= i < |slices| ==>
      slices[i] == Slice(Analyzable(p)[i].holding.name, Analyzable(p)[i].holding.amount.value)
  {
    if |p| == 0 then []
    else
      var e := p[|p| - 1];
      var pre := p[..|p| - 1];
      assert AllPresent(pre) by {
        assert forall i :: 0 <= i < |pre| ==> pre[i] == p[i];
      }
      var slices := Composition(pre);
      if e.holding.amount.value > 0.0 then slices + [Slice(e.holding.name, e.holding.amount.value)] else slices
  }

  function SliceTotal(slices: seq<Slice>): real
  {
    if |slices| == 0 then 0.0 else SliceTotal(slices[..|slices| - 1]) + slices[|slices| - 1].amount
  }

  /** With amounts of at least 0 the slices add up to the summed amount: the
      holdings left out of the chart hold 0. */
  lemma {:induction false} CompositionAddsUp(p: Portfolio)
    requires AllNonNegative(p)
    ensures SliceTotal(Composition(p)) == TotalAmount(p)
  {
    if |p| > 0 {
      var pre := p[..|p| - 1];
      var e := p[|p| - 1];
      assert forall i :: 0 <= i < |pre| ==> pre[i] == p[i];
      CompositionAddsUp(pre);
      var slices := Composition(pre);
      if e.holding.amount.value > 0.0 {
        var s := Slice(e.holding.name, e.holding.amount.value);
        assert (slices + [s])[..|slices|] == slices;
      }
    }
  }

  /** Total and annualized return, in percent. */
  datatype Summary = Summary(totalReturn: real, annualizedReturn: real)

  /** The portfolio's figures: its summary and what the Sharpe step reports. */
  datatype PortfolioFigures = PortfolioFigures(summary: Summary, sharpe: Sharpe)

  /** What the analysis shows. */
  datatype Report =
    | AwaitingAmounts
    | NoStockData(composition: seq<Slice>)
    | Analysed(
        composition: seq<Slice>,
        value: seq<real>,
        rebased: seq<real>,
        figures: Option<PortfolioFigures>,
        benchmark: seq<real>,
        benchmarkSummary: Option<Summary>)

  /** The summary of a trajectory rebased to 100, over a span of `spanDays` days. */
  function Summarize(rebased: seq<real>, spanDays: int, pow: (real, real) -> real): (s: Summary)
    requires |rebased| > 0 && rebased[0] == 100.0
    ensures s.totalReturn == rebased[|rebased| - 1] - 100.0
    ensures spanDays <= 0 ==> s.annualizedReturn == 0.0
    ensures spanDays > 0 ==>
      s.annualizedReturn + 100.0 == 100.0 * pow(1.0 + s.totalReturn / 100.0, DaysPerYear / spanDays as real)
  {
    var total := TotalReturn(rebased);
    Summary(total, AnnualizedReturn(total, spanDays, pow))
  }

  /** Rebasing does not change the total return. */
  lemma TotalReturnRebase(v: seq<real>)
    requires |v| > 0 && v[0] > 0.0
    ensures TotalReturn(Rebase(v)) == TotalReturn(v)
  {
    var r := Rebase(v);
    var last := |v| - 1;
    assert r[last] * v[0] == v[last] * 100.0;
    assert r[last] / 100.0 == v[last] / v[0];
  }

  /** The benchmark index, gaps filled and rebased to 100 on its first filled
      price (by `FilledValuesEnds`, the first price the index traded at);
      empty when its download failed or brought no price. */
  function Benchmark(index: Option<seq<Option<real>>>): (b: seq<real>)
    ensures b == [] <==> index.None? || !HasObservation(index.value) || Filled(index.value)[0] <= 0.0
    ensures b != [] ==> |b| == |index.value| && b[0] == 100.0
    ensures b != [] ==> forall i :: 0 <= i < |b| ==> b[i] * Filled(index.value)[0] == Filled(index.value)[i] * 100.0
  {
    if index.None? || !HasObservation(index.value) then [] else Rebase(Filled(index.value))
  }

  /** The benchmark's summary, shown only when there is a benchmark trajectory. */
  function BenchmarkSummary(benchmark: seq<real>, spanDays: int, pow: (real, real) -> real): (s: Option<Summary>)
    requires benchmark != [] ==> benchmark[0] == 100.0
    ensures s.Some? <==> benchmark != []
    ensures s.Some? ==> s.value.totalReturn == benchmark[|benchmark| - 1] - 100.0
    ensures s.Some? && spanDays <= 0 ==> s.value.annualizedReturn == 0.0
    ensures s.Some? && spanDays > 0 ==>
      s.value.annualizedReturn + 100.0 == 100.0 * pow(1.0 + s.value.totalReturn / 100.0, DaysPerYear / spanDays as real)
  {
    if benchmark == [] then None else Some(Summarize(benchmark, spanDays, pow))
  }

  /** The value series has no zero before its last entry once some holding
      contributes; its daily returns are then defined. */
  lemma ValueNonZero(p: Portfolio, f: Frame)
    requires Observed(f) && PositivePrices(f) && AnyContributes(p, f)
    ensures forall i :: 0 <= i < |f.rows| ==> DailyValue(p, f)[i] != 0.0
  {
    DailyValueSign(p, f);
  }

  /** The rebased trajectory is there exactly when the frame has a date and
      some holding contributes. */
  lemma RebasedIff(p: Portfolio, f: Frame)
    requires Observed(f) && PositivePrices(f)
    ensures Rebase(DailyValue(p, f)) != [] <==> |f.rows| > 0 && AnyContributes(p, f)
  {
    DailyValueSign(p, f);
  }

  /** The portfolio's summary and Sharpe step, reported only when the value
      series could be rebased. The total return is read off the rebased
      trajectory, the daily returns off the unscaled value series. */
  function Figures(p: Portfolio, f: Frame, spanDays: int, pow: (real, real) -> real, sqrt: real -> real)
    : (fig: Option<PortfolioFigures>)
    requires Observed(f) && PositivePrices(f)
    requires forall x :: x > 0.0 ==> sqrt(x) > 0.0
    ensures fig.Some? <==> |f.rows| > 0 && AnyContributes(p, f)
    ensures fig.Some? ==> DailyValue(p, f)[0] > 0.0 && fig.value.summary.totalReturn == TotalReturn(DailyValue(p, f))
    ensures fig.Some? && spanDays <= 0 ==> fig.value.summary.annualizedReturn == 0.0
    ensures fig.Some? && spanDays > 0 ==>
      fig.value.summary.annualizedReturn + 100.0
        == 100.0 * pow(1.0 + fig.value.summary.totalReturn / 100.0, DaysPerYear / spanDays as real)
    ensures fig.Some? ==> forall i :: 0 <= i < |f.rows| ==> DailyValue(p, f)[i] != 0.0
    ensures fig.Some? ==> (fig.value.sharpe.NoDailyReturns? <==> |f.rows| == 1)
    ensures fig.Some? ==> (fig.value.sharpe.Ratio? <==> |f.rows| >= 3 && !Constant(DailyReturns(DailyValue(p, f))))
  {
    var value := DailyValue(p, f);
    var rebased := Rebase(value);
    RebasedIff(p, f);
    if rebased == [] then None
    else
      ValueNonZero(p, f);
      TotalReturnRebase(value);
      Some(PortfolioFigures(Summarize(rebased, spanDays, pow), SharpeRatio(DailyReturns(value), sqrt)))
  }

  /** The analysis of the dict `p` over the price frame `f` (one column per
      ticker whose download brought data), with the benchmark index download
      `index` and a span of `spanDays` days. */
  function Analyze(p: Portfolio, f: Frame, index: Option<seq<Option<real>>>, spanDays: int,
                   pow: (real, real) -> real, sqrt: real -> real): (r: Report)
    requires AllPresent(p)
    requires Observed(f) && PositivePrices(f)
    requires forall x :: x > 0.0 ==> sqrt(x) > 0.0
    ensures r.AwaitingAmounts? <==> !AnalysisGate(p)
    ensures r.NoStockData? <==> AnalysisGate(p) && f.columns == {}
    ensures !r.AwaitingAmounts? ==> r.composition == Composition(p)
    ensures r.Analysed? ==> |r.value| == |f.rows|
    ensures r.Analysed? ==> r.value == DailyValue(p, f) && r.rebased == Rebase(r.value)
    ensures r.Analysed? && |f.rows| > 0 ==> r.value[0] == ContributedAmount(p, f)
    ensures r.Analysed? ==> (r.rebased != [] <==> |f.rows| > 0 && AnyContributes(p, f))
    ensures r.Analysed? ==> (r.figures.Some? <==> r.rebased != [])
    ensures r.Analysed? && r.figures.Some? ==> r.value[0] > 0.0 && r.figures.value.summary.totalReturn == TotalReturn(r.value)
    ensures r.Analysed? ==> r.figures == Figures(p, f, spanDays, pow, sqrt)
    ensures r.Analysed? ==> r.benchmark == Benchmark(index)
    ensures r.Analysed? ==> r.benchmarkSummary == BenchmarkSummary(r.benchmark, spanDays, pow)
  {
    if !AnalysisGate(p) then AwaitingAmounts
    else if f.columns == {} then NoStockData(Composition(p))
    else
      var value := DailyValue(p, f);
      RebasedIff(p, f);
      var benchmark := Benchmark(index);
      var benchmarkSummary := BenchmarkSummary(benchmark, spanDays, pow);
      var r := Analysed(Composition(p), value, Rebase(value), Figures(p, f, spanDays, pow, sqrt), benchmark, benchmarkSummary);
      if |f.rows| > 0 then FirstValueIsInvested(p, f); r else r
  }

  /** The figures shown beside the trajectories: the benchmark's total return
      is its rebased last value less 100 and its annualized return follows the
      span guard, and the portfolio's Sharpe ratio is shown exactly when there
      are two or more daily returns that are not all equal. */
  lemma ShownFigures(p: Portfolio, f: Frame, index: Option<seq<Option<real>>>, spanDays: int,
                     pow: (real, real) -> real, sqrt: real -> real)
    requires AllPresent(p)
    requires Observed(f) && PositivePrices(f)
    requires forall x :: x > 0.0 ==> sqrt(x) > 0.0
    ensures var r := Analyze(p, f, index, spanDays, pow, sqrt);
      r.Analysed? && r.benchmarkSummary.Some? ==>
        r.benchmarkSummary.value.totalReturn == r.benchmark[|r.benchmark| - 1] - 100.0
        && (spanDays <= 0 ==> r.benchmarkSummary.value.annualizedReturn == 0.0)
    ensures var r := Analyze(p, f, index, spanDays, pow, sqrt);
      r.Analysed? && r.figures.Some? ==>
        (r.figures.value.sharpe.Ratio? <==> |f.rows| >= 3 && !Constant(DailyReturns(r.value)))
  {
  }

  /** On the screen's own inputs (amounts of at least 0) the analysis waits
      exactly when no holding has an amount above 0. */
  lemma AnalysisWaitsIff(p: Portfolio, f: Frame, index: Option<seq<Option<real>>>, spanDays: int,
                         pow: (real, real) -> real, sqrt: real -> real)
    requires AllNonNegative(p)
    requires Observed(f) && PositivePrices(f)
    requires forall x :: x > 0.0 ==> sqrt(x) > 0.0
    ensures Analyze(p, f, index, spanDays, pow, sqrt).AwaitingAmounts? <==> Analyzable(p) == []
  {
    AnalysisGateIff(p);
  }

  /** A holding whose amount is 0 never contributes: the value series is that
      of the analyzable subset alone. */
  lemma ValueOfAnalyzable(p: Portfolio, f: Frame)
    requires Observed(f) && PositivePrices(f)
    ensures DailyValue(p, f) == DailyValue(Analyzable(p), f)
  {
    OnlyContributorsCount(p, f);
    OnlyContributorsCount(Analyzable(p), f);
    ContributingOfAnalyzable(p, f);
  }

  lemma {:induction false} ContributingOfAnalyzable(p: Portfolio, f: Frame)
    ensures ContributingEntries(Analyzable(p), f) == ContributingEntries(p, f)
  {
    if |p| > 0 {
      var pre := p[..|p| - 1];
      var e := p[|p| - 1];
      ContributingOfAnalyzable(pre, f);
      var q := Analyzable(pre);
      if Invested(e.holding) {
        assert Analyzable(p) == q + [e];
        assert (q + [e])[..|q|] == q;
      }
    }
  }
}
