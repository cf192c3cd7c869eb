/** The listed-stock screen's simulation: each analyzable holding buys
    `amount / first price` shares at the first price left after `dropna`, is
    valued at the last such price, and the result rows and the totals are
    reported, or one of the screen's messages when there is nothing to report. */
module Simulation {
  import opened Optional
  import opened Portfolio
  import opened Series
  import opened Frames
  import opened Valuation

  /** One row of the result table. */
  datatype HoldingResult = HoldingResult(
    name: string,
    initialInvestment: real,
    finalValue: real,
    profitLoss: real,
    returnRate: real)

  /** A holding can be valued when its column holds a price and the first
      price is above 0. */
  predicate Valuable(column: seq<Option<real>>)
  {
    HasObservation(column) && FirstKept(column) > 0.0
  }

  /** `x * y == z` with `y > 0`: `x` has the sign of `z`. */
  lemma QuotientSign(x: real, y: real, z: real)
    requires y > 0.0 && x * y == z
    ensures (x > 0.0 <==> z > 0.0) && (x < 0.0 <==> z < 0.0)
  {
    assert x == z / y;
  }

  /** Buy-and-hold of one holding; `None` when the column is empty after
      `dropna` or its first price is not above 0. */
  function Valuate(name: string, amount: real, column: seq<Option<real>>): (r: Option<HoldingResult>)
    requires amount > 0.0
    ensures r.Some? <==> Valuable(column)
    ensures r.Some? ==> r.value.name == name && r.value.initialInvestment == amount
    ensures r.Some? ==> r.value.finalValue * FirstKept(column) == amount * LastKept(column)
    ensures r.Some? ==> r.value.profitLoss == r.value.finalValue - amount
    ensures r.Some? ==> r.value.returnRate * amount == r.value.profitLoss * 100.0
    ensures r.Some? ==> (r.value.profitLoss > 0.0 <==> LastKept(column) > FirstKept(column))
    ensures r.Some? ==> (r.value.profitLoss < 0.0 <==> LastKept(column) < FirstKept(column))
  {
    if !HasObservation(column) then None
    else
      var first := FirstKept(column);
      var last := LastKept(column);
      if first > 0.0 then
        var shares := amount / first;
        var final := shares * last;
        var profit := final - amount;
        assert shares * first == amount;
        assert final * first == amount * last;
        assert profit * first == amount * (last - first);
        QuotientSign(profit, first, amount * (last - first));
        QuotientSign(last - first, amount, amount * (last - first));
        var rate := profit / amount * 100.0;
        Some(HoldingResult(name, amount, final, profit, rate))
      else None
  }

  /** A price that does not move gives neither profit nor loss. */
  lemma UnchangedPriceNoProfit(name: string, amount: real, column: seq<Option<real>>)
    requires amount > 0.0 && Valuable(column)
    requires LastKept(column) == FirstKept(column)
    ensures Valuate(name, amount, column).value.profitLoss == 0.0
    ensures Valuate(name, amount, column).value.returnRate == 0.0
    ensures Valuate(name, amount, column).value.finalValue == amount
  {
    var r := Valuate(name, amount, column).value;
    assert r.profitLoss == 0.0;
  }

  /** Every amount of the dict is a number above 0, as in the analyzable subset. */
  predicate AllInvested(p: Portfolio)
  {
    forall i :: 0 <= i < |p| ==> Invested(p[i].holding)
  }

  /** The result rows of the holdings that can be valued, in dict order. */
  function Results(p: Portfolio, f: Frame): (rows: seq<HoldingResult>)
    requires AllInvested(p)
    ensures |rows| <= |p|
    ensures forall i :: 0 <= i < |rows| ==> rows[i].initialInvestment > 0.0
  {
    if |p| == 0 then []
    else
      var e := p[|p| - 1];
      var pre := Results(p[..|p| - 1], f);
      var v := Valuate(e.holding.name, e.holding.amount.value, Column(f, e.ticker));
      if v.Some? then pre + [v.value] else pre
  }

  function SumInitial(rows: seq<HoldingResult>): real
  {
    if |rows| == 0 then 0.0 else SumInitial(rows[..|rows| - 1]) + rows[|rows| - 1].initialInvestment
  }

  function SumFinal(rows: seq<HoldingResult>): real
  {
    if |rows| == 0 then 0.0 else SumFinal(rows[..|rows| - 1]) + rows[|rows| - 1].finalValue
  }

  /** Rows of positive investments sum to a positive total exactly when there
      is at least one row. */
  lemma {:induction false} SumInitialPositive(rows: seq<HoldingResult>)
    requires forall i :: 0 <= i < |rows| ==> rows[i].initialInvestment > 0.0
    ensures SumInitial(rows) >= 0.0
    ensures SumInitial(rows) > 0.0 <==> |rows| > 0
  {
    if |rows| > 0 {
      SumInitialPositive(rows[..|rows| - 1]);
    }
  }

  /** A holding that cannot be valued adds no row and nothing to either total. */
  lemma SkippedHoldingChangesNothing(p: Portfolio, e: Entry, f: Frame)
    requires AllInvested(p) && Invested(e.holding)
    requires !Valuable(Column(f, e.ticker))
    ensures Results(p + [e], f) == Results(p, f)
  {
    assert (p + [e])[..|p|] == p;
    assert forall i :: 0 <= i < |p| ==> (p + [e])[i] == p[i];
  }

  /** A holding that can be valued adds its row at the end, its amount to the
      invested total and its final value to the final total. */
  lemma ValuedHoldingAdds(p: Portfolio, e: Entry, f: Frame)
    requires AllInvested(p) && Invested(e.holding)
    requires Valuable(Column(f, e.ticker))
    ensures var row := Valuate(e.holding.name, e.holding.amount.value, Column(f, e.ticker)).value;
      && Results(p + [e], f) == Results(p, f) + [row]
      && SumInitial(Results(p + [e], f)) == SumInitial(Results(p, f)) + e.holding.amount.value
      && SumFinal(Results(p + [e], f)) == SumFinal(Results(p, f)) + row.finalValue
  {
    assert (p + [e])[..|p|] == p;
    assert forall i :: 0 <= i < |p| ==> (p + [e])[i] == p[i];
    var rows := Results(p, f);
    var row := Valuate(e.holding.name, e.holding.amount.value, Column(f, e.ticker)).value;
    assert (rows + [row])[..|rows|] == rows;
  }

  /** The loop over the analyzable holdings, accumulating the two totals. */
  method Simulate(p: Portfolio, f: Frame) returns (rows: seq<HoldingResult>, totalInitial: real, finalValue: real)
    requires AllInvested(p)
    ensures rows == Results(p, f)
    ensures totalInitial == SumInitial(rows) && finalValue == SumFinal(rows)
    ensures |rows| > 0 <==> totalInitial > 0.0
  {
    rows := [];
    totalInitial := 0.0;
    finalValue := 0.0;
    var i := 0;
    while i < |p|
      invariant 0 <= i <= |p|
      invariant rows == Results(p[..i], f)
      invariant totalInitial == SumInitial(rows) && finalValue == SumFinal(rows)
    {
      var e := p[i];
      assert p[..i + 1] == p[..i] + [e];
      var v := Valuate(e.holding.name, e.holding.amount.value, Column(f, e.ticker));
      if v.Some? {
        ValuedHoldingAdds(p[..i], e, f);
        totalInitial := totalInitial + v.value.initialInvestment;
        finalValue := finalValue + v.value.finalValue;
        rows := rows + [v.value];
      } else {
        SkippedHoldingChangesNothing(p[..i], e, f);
      }
      i := i + 1;
    }
    assert p[..i] == p;
    SumInitialPositive(rows);
  }

  /** What the simulation shows. */
  datatype Outcome =
    | NoInvestment
    | NoPriceData
    | UnexpectedError
    | NothingAnalysable
    | Report(rows: seq<HoldingResult>, totalInitial: real, totalFinal: real, totalProfit: real, totalRate: real)

  /** Some analyzable ticker has no column in the downloaded frame: reading it
      raises, and the screen shows its catch-all error. */
  predicate MissingColumn(p: Portfolio, f: Frame)
  {
    exists i :: 0 <= i < |p| && p[i].ticker !in f.columns
  }

  /** A frame with no rows or no columns is `empty`. */
  predicate EmptyFrame(f: Frame)
  {
    |f.rows| == 0 || f.columns == {}
  }

  /** `profit / invested * 100`, or 0 when nothing was invested. */
  function ReturnRate(profit: real, invested: real): (rate: real)
    ensures invested > 0.0 ==> rate * invested == profit * 100.0
    ensures invested <= 0.0 ==> rate == 0.0
  {
    if invested > 0.0 then profit / invested * 100.0 else 0.0
  }

  /** A report's totals are those of its rows: the invested and final totals
      are the rows' sums (a positive investment), the profit is their
      difference and the rate is the profit per invested amount, in percent. */
  predicate Totals(o: Outcome)
  {
    o.Report? ==>
      o.totalInitial == SumInitial(o.rows) && o.totalFinal == SumFinal(o.rows)
      && o.totalInitial > 0.0
      && o.totalProfit == o.totalFinal - o.totalInitial
      && o.totalRate * o.totalInitial == o.totalProfit * 100.0
  }

  /** The outcome once every analyzable ticker has a column: the valued rows
      and their totals, or nothing to show when no holding could be valued. */
  function Tally(q: Portfolio, f: Frame): (o: Outcome)
    requires AllInvested(q)
    ensures o.NothingAnalysable? || o.Report?
    ensures o.NothingAnalysable? <==> Results(q, f) == []
    ensures o.Report? ==> o.rows == Results(q, f) && |o.rows| > 0 && o.totalInitial > 0.0
    ensures Totals(o)
  {
    var rows := Results(q, f);
    if |rows| == 0 then NothingAnalysable
    else
      var totalInitial := SumInitial(rows);
      var totalFinal := SumFinal(rows);
      var profit := totalFinal - totalInitial;
      SumInitialPositive(rows);
      Report(rows, totalInitial, totalFinal, profit, ReturnRate(profit, totalInitial))
  }

  /** The outcome for the analyzable subset `q` over the cut frame `f`. */
  function Screen(q: Portfolio, f: Frame): (o: Outcome)
    requires AllInvested(q)
    ensures o.NoInvestment? <==> q == []
    ensures o.NoPriceData? <==> q != [] && EmptyFrame(f)
    ensures o.UnexpectedError? <==> q != [] && !EmptyFrame(f) && MissingColumn(q, f)
    ensures o.NothingAnalysable? <==> (q != [] && !EmptyFrame(f) && !MissingColumn(q, f) && Results(q, f) == [])
    ensures o.Report? ==> o.rows == Results(q, f) && |o.rows| > 0 && o.totalInitial > 0.0
    ensures Totals(o)
  {
    if q == [] then NoInvestment
    else if EmptyFrame(f) then NoPriceData
    else if MissingColumn(q, f) then UnexpectedError
    else Tally(q, f)
  }

  /** The simulation over the dict, with the downloaded prices cut to the
      closed range `[start, end]`. */
  function Simulation(p: Portfolio, downloaded: Frame, start: int, end: int): (o: Outcome)
    ensures o.NoInvestment? <==> Analyzable(p) == []
    ensures o.NoPriceData? <==> Analyzable(p) != [] && EmptyFrame(Restrict(downloaded, start, end))
    ensures o.UnexpectedError? <==>
      Analyzable(p) != [] && !EmptyFrame(Restrict(downloaded, start, end)) && MissingColumn(Analyzable(p), downloaded)
    ensures o.NothingAnalysable? <==>
      (Analyzable(p) != [] && !EmptyFrame(Restrict(downloaded, start, end))
       && !MissingColumn(Analyzable(p), downloaded)
       && Results(Analyzable(p), Restrict(downloaded, start, end)) == [])
    ensures o.Report? ==> o.rows == Results(Analyzable(p), Restrict(downloaded, start, end))
    ensures o.Report? ==> |o.rows| > 0 && o.totalInitial > 0.0
    ensures Totals(o)
  {
    var q := Analyzable(p);
    var f := Restrict(downloaded, start, end);
    SameColumnsSameMissing(q, f, downloaded);
    Screen(q, f)
  }

  lemma SameColumnsSameMissing(q: Portfolio, f: Frame, g: Frame)
    requires f.columns == g.columns
    ensures MissingColumn(q, f) == MissingColumn(q, g)
  {
  }

  /** The button handler: the same outcome, computed by the loop. */
  method RunSimulation(p: Portfolio, downloaded: Frame, start: int, end: int) returns (o: Outcome)
    ensures o == Simulation(p, downloaded, start, end)
  {
    var q := Analyzable(p);
    var f := Restrict(downloaded, start, end);
    if q == [] {
      return NoInvestment;
    }
    if EmptyFrame(f) {
      return NoPriceData;
    }
    if MissingColumn(q, f) {
      return UnexpectedError;
    }
    var rows, totalInitial, finalValue := Simulate(q, f);
    if |rows| == 0 {
      return NothingAnalysable;
    }
    var profit := finalValue - totalInitial;
    o := Report(rows, totalInitial, finalValue, profit, ReturnRate(profit, totalInitial));
    assert o == Tally(q, f);
  }

  /** With prices above 0 the first and last price kept by `dropna` are above 0. */
  lemma KeptPricesPositive(f: Frame, t: Ticker)
    requires PositivePrices(f) && HasObservation(Column(f, t))
    ensures FirstKept(Column(f, t)) > 0.0 && LastKept(Column(f, t)) > 0.0
  {
    var col := Column(f, t);
    KeptFromColumn(col);
  }

  /** Valuing at the first and last price kept by `dropna` gives the last
      entry of the value series over any prices with the same two ends. */
  lemma ValuateIsLastHoldingValue(name: string, amount: real, column: seq<Option<real>>, prices: seq<real>)
    requires amount > 0.0 && Valuable(column)
    requires |prices| > 0 && prices[0] == FirstKept(column) && prices[|prices| - 1] == LastKept(column)
    ensures Valuate(name, amount, column).value.finalValue == HoldingValue(amount, prices)[|prices| - 1]
  {
    var first := prices[0];
    var last := prices[|prices| - 1];
    var final := Valuate(name, amount, column).value.finalValue;
    var hv := HoldingValue(amount, prices)[|prices| - 1];
    assert final * first == amount * last;
    assert hv * first == amount * last;
    Cancel(final, hv, first);
  }

  /** On a frame where every column holds a price and every price is above 0,
      the listed-stock screen's final value of a holding is the last entry of
      the ticker-entry screen's value series for it: dropping gaps and filling
      them agree on the first and last price. */
  lemma ValuateMatchesHoldingValue(e: Entry, f: Frame)
    requires Observed(f) && PositivePrices(f) && Contributes(e, f)
    ensures Valuable(Column(f, e.ticker))
    ensures Valuate(e.holding.name, e.holding.amount.value, Column(f, e.ticker)).value.finalValue
      == HoldingValue(e.holding.amount.value, FilledColumn(f, e.ticker))[|f.rows| - 1]
  {
    var col := Column(f, e.ticker);
    var amount := e.holding.amount.value;
    var prices := FilledColumn(f, e.ticker);
    var n := |f.rows| - 1;
    assert |prices| - 1 == n && |col| - 1 == n;
    FilledColumnEnds(f, e.ticker);
    assert prices[0] == FirstKept(col);
    assert prices[n] == LastKept(col);
    ValuateIsLastHoldingValue(e.holding.name, amount, col, prices);
  }

  lemma Cancel(x: real, y: real, c: real)
    requires c > 0.0 && x * c == y * c
    ensures x == y
  {
    assert (x - y) * c == 0.0;
  }

  /** On such a frame, with every holding's ticker a column, every holding
      gets a row, the invested total is what the ticker-entry screen invests,
      and the final total is that screen's portfolio value on the last date. */
  lemma {:induction false} SimulationMatchesDailyValue(p: Portfolio, f: Frame)
    requires Observed(f) && PositivePrices(f) && |f.rows| > 0
    requires AllInvested(p)
    requires forall i :: 0 <= i < |p| ==> p[i].ticker in f.columns
    ensures |Results(p, f)| == |p|
    ensures SumInitial(Results(p, f)) == ContributedAmount(p, f)
    ensures SumFinal(Results(p, f)) == DailyValue(p, f)[|f.rows| - 1]
  {
    if |p| > 0 {
      var pre := p[..|p| - 1];
      var e := p[|p| - 1];
      assert p == pre + [e];
      assert forall i :: 0 <= i < |pre| ==> pre[i] == p[i];
      SimulationMatchesDailyValue(pre, f);
      MatchStep(pre, e, f);
      var n := |f.rows| - 1;
      var rows, rowsPre := Results(p, f), Results(pre, f);
      EqualWhenDifferencesAgree(SumInitial(rows), ContributedAmount(p, f), SumInitial(rowsPre), ContributedAmount(pre, f));
      EqualWhenDifferencesAgree(SumFinal(rows), DailyValue(p, f)[n], SumFinal(rowsPre), DailyValue(pre, f)[n]);
    }
  }

  /** Two quantities whose difference matches that of two equal ones are equal. */
  lemma EqualWhenDifferencesAgree(x: real, y: real, x0: real, y0: real)
    requires x - y == x0 - y0 && x0 == y0
    ensures x == y
  {
  }

  /** One more contributing holding adds its amount, its row and its last
      value on both screens. */
  lemma MatchStep(pre: Portfolio, e: Entry, f: Frame)
    requires Observed(f) && PositivePrices(f) && |f.rows| > 0
    requires AllInvested(pre) && Invested(e.holding) && e.ticker in f.columns
    ensures |Results(pre + [e], f)| == |Results(pre, f)| + 1
    ensures SumInitial(Results(pre + [e], f)) - ContributedAmount(pre + [e], f)
      == SumInitial(Results(pre, f)) - ContributedAmount(pre, f)
    ensures SumFinal(Results(pre + [e], f)) - DailyValue(pre + [e], f)[|f.rows| - 1]
      == SumFinal(Results(pre, f)) - DailyValue(pre, f)[|f.rows| - 1]
  {
    ValuateMatchesHoldingValue(e, f);
    ValuedHoldingAdds(pre, e, f);
    DailyValueStep(pre, e, f);
  }

  /** The ticker-entry screen's side of `MatchStep`. */
  lemma DailyValueStep(pre: Portfolio, e: Entry, f: Frame)
    requires Observed(f) && PositivePrices(f) && |f.rows| > 0 && Contributes(e, f)
    ensures DailyValue(pre + [e], f)[|f.rows| - 1]
      == DailyValue(pre, f)[|f.rows| - 1] + HoldingValue(e.holding.amount.value, FilledColumn(f, e.ticker))[|f.rows| - 1]
    ensures ContributedAmount(pre + [e], f) == ContributedAmount(pre, f) + e.holding.amount.value
  {
    var p := pre + [e];
    assert p[..|p| - 1] == pre;
  }
}
