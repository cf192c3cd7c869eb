/** Buy-and-hold valuation of the ticker-entry screen: each invested holding
    buys `amount / first price` shares on the first date of the frame, and the
    portfolio's value on each date is the sum of shares times that date's
    price; the trajectory is then rebased to 100. */
module Valuation {
  import opened Optional
  import opened Portfolio
  import opened Series
  import opened Frames

  /** Every column of the frame holds at least one price: a download that came
      back empty never becomes a column. */
  predicate Observed(f: Frame)
  {
    forall t :: t in f.columns ==> HasObservation(Column(f, t))
  }

  /** A column with every gap filled by `ffill().bfill()`. */
  function FilledColumn(f: Frame, t: Ticker): (c: seq<real>)
    requires HasObservation(Column(f, t))
    ensures |c| == |f.rows| > 0
    ensures PositivePrices(f) ==> forall i :: 0 <= i < |c| ==> c[i] > 0.0
  {
    FilledFromColumn(Column(f, t));
    Filled(Column(f, t))
  }

  /** The filled column starts at the first and ends at the last price that
      `dropna` keeps. */
  lemma FilledColumnEnds(f: Frame, t: Ticker)
    requires HasObservation(Column(f, t))
    ensures FilledColumn(f, t)[0] == FirstKept(Column(f, t))
    ensures FilledColumn(f, t)[|f.rows| - 1] == LastKept(Column(f, t))
  {
    FilledValuesEnds(Column(f, t));
  }

  /** A holding takes part in the valuation when its ticker has a price column
      and its amount is above 0. */
  predicate Contributes(e: Entry, f: Frame)
  {
    e.ticker in f.columns && Invested(e.holding)
  }

  /** `n` zeros: the value series before any holding is added. */
  function Zeros(n: nat): (z: seq<real>)
    ensures |z| == n && forall i :: 0 <= i < n ==> z[i] == 0.0
  {
    seq(n, i => 0.0)
  }

  /** The value of `amount` invested at the first price of `prices`, on every date. */
  function HoldingValue(amount: real, prices: seq<real>): (v: seq<real>)
    requires |prices| > 0 && prices[0] > 0.0
    ensures |v| == |prices|
    ensures v[0] == amount
    ensures forall i :: 0 <= i < |v| ==> v[i] * prices[0] == amount * prices[i]
  {
    var shares := amount / prices[0];
    seq(|prices|, i requires 0 <= i < |prices| => shares * prices[i])
  }

  /** Date-wise sum of two series of one length. */
  function Plus(a: seq<real>, b: seq<real>): (s: seq<real>)
    requires |a| == |b|
    ensures |s| == |a| && forall i :: 0 <= i < |a| ==> s[i] == a[i] + b[i]
  {
    seq(|a|, i requires 0 <= i < |a| => a[i] + b[i])
  }

  /** `portfolio_daily_value`: the summed value of the contributing holdings,
      one entry per date of the frame. */
  function DailyValue(p: Portfolio, f: Frame): (v: seq<real>)
    requires Observed(f) && PositivePrices(f)
    ensures |v| == |f.rows|
  {
    if |p| == 0 then Zeros(|f.rows|)
    else
      var e := p[|p| - 1];
      var acc := DailyValue(p[..|p| - 1], f);
      if Contributes(e, f) then
        Plus(acc, HoldingValue(e.holding.amount.value, FilledColumn(f, e.ticker)))
      else acc
  }

  /** The amounts of the contributing holdings, summed. */
  function ContributedAmount(p: Portfolio, f: Frame): (total: real)
    ensures total >= 0.0
  {
    if |p| == 0 then 0.0
    else
      var e := p[|p| - 1];
      ContributedAmount(p[..|p| - 1], f) + if Contributes(e, f) then e.holding.amount.value else 0.0
  }

  /** Some holding contributes. */
  predicate AnyContributes(p: Portfolio, f: Frame)
  {
    exists i :: 0 <= i < |p| && Contributes(p[i], f)
  }

  /** On the first date the portfolio is worth exactly what was invested in
      the contributing holdings. */
  lemma {:induction false} FirstValueIsInvested(p: Portfolio, f: Frame)
    requires Observed(f) && PositivePrices(f) && |f.rows| > 0
    ensures DailyValue(p, f)[0] == ContributedAmount(p, f)
  {
    if |p| > 0 {
      FirstValueIsInvested(p[..|p| - 1], f);
    }
  }

  /** With positive prices the value is positive on every date when some
      holding contributes, and 0 on every date otherwise. */
  lemma {:induction false} DailyValueSign(p: Portfolio, f: Frame)
    requires Observed(f) && PositivePrices(f)
    ensures AnyContributes(p, f) ==> forall i :: 0 <= i < |f.rows| ==> DailyValue(p, f)[i] > 0.0
    ensures !AnyContributes(p, f) ==> forall i :: 0 <= i < |f.rows| ==> DailyValue(p, f)[i] == 0.0
  {
    if |p| > 0 {
      var pre := p[..|p| - 1];
      DailyValueSign(pre, f);
      DailyValueNonNegative(pre, f);
      assert forall i :: 0 <= i < |pre| ==> pre[i] == p[i];
      assert AnyContributes(p, f) <==> AnyContributes(pre, f) || Contributes(p[|p| - 1], f);
      var e := p[|p| - 1];
      if Contributes(e, f) {
        HoldingValuePositive(e.holding.amount.value, FilledColumn(f, e.ticker));
      }
    }
  }

  /** A positive amount at positive prices is worth something on every date. */
  lemma HoldingValuePositive(amount: real, prices: seq<real>)
    requires amount > 0.0 && |prices| > 0
    requires forall i :: 0 <= i < |prices| ==> prices[i] > 0.0
    ensures forall i :: 0 <= i < |prices| ==> HoldingValue(amount, prices)[i] > 0.0
  {
    var hv := HoldingValue(amount, prices);
    forall i | 0 <= i < |prices|
      ensures hv[i] > 0.0
    {
      PositiveFactor(hv[i], prices[0], amount * prices[i]);
    }
  }

  lemma PositiveFactor(x: real, y: real, z: real)
    requires y > 0.0 && z > 0.0 && x * y == z
    ensures x > 0.0
  {
    assert x == z / y;
  }

  lemma {:induction false} DailyValueNonNegative(p: Portfolio, f: Frame)
    requires Observed(f) && PositivePrices(f)
    ensures forall i :: 0 <= i < |f.rows| ==> DailyValue(p, f)[i] >= 0.0
  {
    if |p| > 0 {
      DailyValueNonNegative(p[..|p| - 1], f);
      var e := p[|p| - 1];
      if Contributes(e, f) {
        HoldingValuePositive(e.holding.amount.value, FilledColumn(f, e.ticker));
      }
    }
  }

  /** The entries that take part in the valuation, in dict order. */
  function ContributingEntries(p: Portfolio, f: Frame): (r: Portfolio)
    ensures forall i :: 0 <= i < |r| ==> Contributes(r[i], f)
    ensures forall e :: e in r <==> e in p && Contributes(e, f)
  {
    if |p| == 0 then []
    else
      var e := p[|p| - 1];
      var init := p[..|p| - 1];
      var pre := ContributingEntries(init, f);
      assert p == init + [e];
      if Contributes(e, f) then
        var r := pre + [e];
        assert r[..|pre|] == pre;
        r
      else pre
  }

  /** Holdings without a price column or without a positive amount change
      nothing: the value is that of the contributing holdings alone. */
  lemma {:induction false} OnlyContributorsCount(p: Portfolio, f: Frame)
    requires Observed(f) && PositivePrices(f)
    ensures DailyValue(p, f) == DailyValue(ContributingEntries(p, f), f)
  {
    if |p| > 0 {
      var pre := p[..|p| - 1];
      var e := p[|p| - 1];
      OnlyContributorsCount(pre, f);
      var q := ContributingEntries(pre, f);
      if Contributes(e, f) {
        assert (q + [e])[..|q|] == q;
      }
    }
  }

  /** Rebasing to 100: the series scaled so that it starts at 100, or nothing
      when there is no positive first value to scale by. */
  function Rebase(v: seq<real>): (r: seq<real>)
    ensures r == [] <==> |v| == 0 || v[0] <= 0.0
    ensures r != [] ==> |r| == |v| && r[0] == 100.0
    ensures r != [] ==> forall i :: 0 <= i < |v| ==> r[i] * v[0] == v[i] * 100.0
  {
    if |v| == 0 || v[0] <= 0.0 then []
    else
      var r := seq(|v|, i requires 0 <= i < |v| => v[i] / v[0] * 100.0);
      assert v[0] / v[0] == 1.0;
      r
  }

  /** `c` times each value. */
  function Scale(c: real, v: seq<real>): (r: seq<real>)
    ensures |r| == |v| && forall i :: 0 <= i < |v| ==> r[i] == c * v[i]
  {
    seq(|v|, i requires 0 <= i < |v| => c * v[i])
  }

  /** Rebasing forgets the scale: a series and any positive multiple of it
      rebase to the same trajectory. */
  lemma RebaseScaleInvariant(c: real, v: seq<real>)
    requires c > 0.0
    ensures Rebase(Scale(c, v)) == Rebase(v)
  {
    var w := Scale(c, v);
    if |v| > 0 && v[0] > 0.0 {
      assert w[0] > 0.0;
      forall i | 0 <= i < |v|
        ensures Rebase(w)[i] == Rebase(v)[i]
      {
        assert w[i] / w[0] == v[i] / v[0];
      }
    } else if |v| > 0 {
      assert w[0] <= 0.0;
    }
  }

  /** A rebased series is already based at 100. */
  lemma RebaseIdempotent(v: seq<real>)
    ensures Rebase(Rebase(v)) == Rebase(v)
  {
    var r := Rebase(v);
    if r != [] {
      forall i | 0 <= i < |r|
        ensures Rebase(r)[i] == r[i]
      {
      }
    }
  }
}
