/** The portfolio the user edits: a Python dict from ticker to
    `{name, invest_amount}`. A dict iterates in insertion order, so it is
    modelled as a sequence of entries with distinct tickers, and `ToMap` is its
    view as a plain map. */
module Portfolio {
  import opened Optional

  type Ticker = string

  /** `invest_amount` is `None` until the user confirms an amount (listed-stock
      screen) or `Some(0.0)` from the start (ticker-entry screen). */
  datatype Holding = Holding(name: string, amount: Option<real>)

  datatype Entry = Entry(ticker: Ticker, holding: Holding)

  type Portfolio = seq<Entry>

  /** The dict as a map; a later entry for the same ticker wins, as an
      assignment to an existing key does. */
  function ToMap(p: Portfolio): map<Ticker, Holding>
  {
    if |p| == 0 then map[]
    else ToMap(p[..|p| - 1])[p[|p| - 1].ticker := p[|p| - 1].holding]
  }

  /** The keys of the view are exactly the tickers of the entries. */
  lemma {:induction false} ToMapKeys(p: Portfolio)
    ensures forall t :: t in ToMap(p) <==> exists i :: 0 <= i < |p| && p[i].ticker == t
  {
    if |p| > 0 {
      var pre := p[..|p| - 1];
      ToMapKeys(pre);
      assert forall i :: 0 <= i < |pre| ==> pre[i] == p[i];
    }
  }

  /** Keys of a dict are distinct: each entry's ticker is new when it is added. */
  predicate Valid(p: Portfolio)
  {
    |p| == 0 || (Valid(p[..|p| - 1]) && p[|p| - 1].ticker !in ToMap(p[..|p| - 1]))
  }

  /** `Valid` says exactly that no two entries share a ticker. */
  lemma {:induction false} ValidIff(p: Portfolio)
    ensures Valid(p) <==> forall i, j :: 0 <= i < j < |p| ==> p[i].ticker != p[j].ticker
  {
    if |p| > 0 {
      var pre := p[..|p| - 1];
      ValidIff(pre);
      ToMapKeys(pre);
      assert forall i :: 0 <= i < |pre| ==> pre[i] == p[i];
    }
  }

  /** Holdings whose amount has been set to a positive number; the only ones
      an analysis may use. */
  predicate Invested(h: Holding)
  {
    h.amount.Some? && h.amount.value > 0.0
  }

  /** Every amount is a number (never `None`), as on the ticker-entry screen. */
  predicate AllPresent(p: Portfolio)
  {
    forall i :: 0 <= i < |p| ==> p[i].holding.amount.Some?
  }

  /** Every amount is a number of at least 0, the range the amount input allows
      on the ticker-entry screen. */
  predicate AllNonNegative(p: Portfolio)
  {
    forall i :: 0 <= i < |p| ==> p[i].holding.amount.Some? && p[i].holding.amount.value >= 0.0
  }

  /** Adds `t` with holding `h` unless the dict already has the key. */
  function Insert(p: Portfolio, t: Ticker, h: Holding): (r: Portfolio)
    ensures t in ToMap(p) ==> r == p
    ensures Valid(p) ==> Valid(r)
    ensures ToMap(r) == if t in ToMap(p) then ToMap(p) else ToMap(p)[t := h]
    ensures t in ToMap(r)
  {
    if t in ToMap(p) then p
    else
      var e := Entry(t, h);
      ToMapAppend(p, e);
      if Valid(p) then ValidAppend(p, e); p + [e] else p + [e]
  }

  lemma ToMapAppend(p: Portfolio, e: Entry)
    ensures ToMap(p + [e]) == ToMap(p)[e.ticker := e.holding]
  {
    assert (p + [e])[..|p|] == p;
  }

  lemma ValidAppend(p: Portfolio, e: Entry)
    requires Valid(p) && e.ticker !in ToMap(p)
    ensures Valid(p + [e])
  {
    assert (p + [e])[..|p|] == p;
  }

  /** Ticker-entry screen: a new ticker enters with amount 0. */
  function AddTicker(p: Portfolio, t: Ticker, name: string): (r: Portfolio)
    ensures Valid(p) ==> Valid(r)
    ensures t in ToMap(p) ==> r == p
    ensures t !in ToMap(p) ==> ToMap(r) == ToMap(p)[t := Holding(name, Some(0.0))]
  {
    Insert(p, t, Holding(name, Some(0.0)))
  }

  /** Listed-stock screen: a newly selected ticker enters with no amount yet. */
  function Select(p: Portfolio, t: Ticker, name: string): (r: Portfolio)
    ensures Valid(p) ==> Valid(r)
    ensures t in ToMap(p) ==> r == p
    ensures t !in ToMap(p) ==> ToMap(r) == ToMap(p)[t := Holding(name, None)]
  {
    Insert(p, t, Holding(name, None))
  }

  /** Every entry for `t` gets amount `a`; all other entries are kept as they are. */
  function UpdateAmount(p: Portfolio, t: Ticker, a: Option<real>): (r: Portfolio)
    ensures |r| == |p|
    ensures forall i :: 0 <= i < |p| ==> r[i].ticker == p[i].ticker
    ensures ToMap(r) == if t in ToMap(p) then ToMap(p)[t := ToMap(p)[t].(amount := a)] else ToMap(p)
    ensures Valid(p) ==> Valid(r)
  {
    if |p| == 0 then []
    else
      var init := p[..|p| - 1];
      var last := p[|p| - 1];
      var pre := UpdateAmount(init, t, a);
      var e := if last.ticker == t then Entry(t, last.holding.(amount := a)) else last;
      assert p == init + [last];
      ToMapAppend(init, last);
      ToMapAppend(pre, e);
      AmountStep(ToMap(init), ToMap(pre), t, a, last.ticker, last.holding);
      if Valid(p) then ValidAppend(pre, e); pre + [e] else pre + [e]
  }

  /** Adding one key to the map commutes with the amount update. */
  lemma AmountStep(m0: map<Ticker, Holding>, m1: map<Ticker, Holding>, t: Ticker, a: Option<real>, u: Ticker, h: Holding)
    requires m1 == if t in m0 then m0[t := m0[t].(amount := a)] else m0
    ensures var m := m0[u := h];
      m1[u := if u == t then h.(amount := a) else h] == if t in m then m[t := m[t].(amount := a)] else m
  {
  }

  /** Confirming an amount for a ticker that is in the dict. */
  function SetAmount(p: Portfolio, t: Ticker, a: Option<real>): (r: Portfolio)
    requires t in ToMap(p)
    ensures Valid(p) ==> Valid(r)
    ensures ToMap(r).Keys == ToMap(p).Keys
    ensures ToMap(r)[t] == Holding(ToMap(p)[t].name, a)
    ensures forall u :: u in ToMap(p) && u != t ==> ToMap(r)[u] == ToMap(p)[u]
  {
    UpdateAmount(p, t, a)
  }

  /** Every entry for `t` removed, the rest in order. */
  function Delete(p: Portfolio, t: Ticker): (r: Portfolio)
    ensures |r| <= |p|
    ensures ToMap(r) == ToMap(p) - {t}
    ensures Valid(p) ==> Valid(r)
  {
    if |p| == 0 then []
    else
      var last := p[|p| - 1];
      var pre := Delete(p[..|p| - 1], t);
      if last.ticker == t then pre
      else
        var r := pre + [last];
        assert r[..|r| - 1] == pre;
        assert ToMap(r) == (ToMap(p[..|p| - 1]) - {t})[last.ticker := last.holding];
        r
  }

  /** The map restricted to invested holdings. */
  function InvestedView(m: map<Ticker, Holding>): map<Ticker, Holding>
  {
    map t | t in m && Invested(m[t]) :: m[t]
  }

  /** The analyzable subset: the entries whose amount is a number above 0, in
      dict order. */
  function Analyzable(p: Portfolio): (r: Portfolio)
    ensures |r| <= |p|
    ensures forall i :: 0 <= i < |r| ==> Invested(r[i].holding)
    ensures Valid(p) ==> Valid(r) && ToMap(r) == InvestedView(ToMap(p))
  {
    if |p| == 0 then []
    else
      var last := p[|p| - 1];
      var pre := Analyzable(p[..|p| - 1]);
      if Invested(last.holding) then
        var r := pre + [last];
        assert r[..|r| - 1] == pre;
        r
      else pre
  }

  /** The analysis refuses to run exactly when no holding is invested. */
  lemma {:induction false} AnalyzableEmptyIff(p: Portfolio)
    ensures Analyzable(p) == [] <==> forall i :: 0 <= i < |p| ==> !Invested(p[i].holding)
  {
    if |p| > 0 {
      var pre := p[..|p| - 1];
      AnalyzableEmptyIff(pre);
      assert forall i :: 0 <= i < |pre| ==> pre[i] == p[i];
    }
  }

  /** The summed amount of a dict whose amounts are all numbers. */
  function TotalAmount(p: Portfolio): (total: real)
    requires AllPresent(p)
    ensures AllNonNegative(p) ==> total >= 0.0 && forall i :: 0 <= i < |p| ==> total >= p[i].holding.amount.value
    ensures (forall i :: 0 <= i < |p| ==> p[i].holding.amount.value == 0.0) ==> total == 0.0
  {
    if |p| == 0 then 0.0
    else
      var pre := p[..|p| - 1];
      assert forall i :: 0 <= i < |pre| ==> pre[i] == p[i];
      TotalAmount(pre) + p[|p| - 1].holding.amount.value
  }

  /** The ticker-entry screen shows its analysis only for a non-empty dict
      whose amounts do not sum to 0. */
  predicate AnalysisGate(p: Portfolio)
    requires AllPresent(p)
    ensures AnalysisGate(p) ==> exists i :: 0 <= i < |p| && p[i].holding.amount.value != 0.0
    ensures AllNonNegative(p) && (exists i :: 0 <= i < |p| && Invested(p[i].holding)) ==> AnalysisGate(p)
  {
    |p| > 0 && TotalAmount(p) != 0.0
  }

  /** With amounts of at least 0 the sum is 0 exactly when every amount is 0. */
  lemma {:induction false} TotalAmountPositive(p: Portfolio)
    requires AllNonNegative(p)
    ensures TotalAmount(p) >= 0.0
    ensures TotalAmount(p) > 0.0 <==> exists i :: 0 <= i < |p| && Invested(p[i].holding)
  {
    if |p| > 0 {
      var pre := p[..|p| - 1];
      assert forall i :: 0 <= i < |pre| ==> pre[i] == p[i];
      TotalAmountPositive(pre);
      if exists i :: 0 <= i < |pre| && Invested(pre[i].holding) {
        var i :| 0 <= i < |pre| && Invested(pre[i].holding);
        assert Invested(p[i].holding);
      }
    }
  }

  /** The gate opens exactly when at least one holding has a positive amount,
      i.e. exactly when the analyzable subset is non-empty. */
  lemma AnalysisGateIff(p: Portfolio)
    requires AllNonNegative(p)
    ensures AnalysisGate(p) <==> Analyzable(p) != []
  {
    TotalAmountPositive(p);
    AnalyzableEmptyIff(p);
  }

  /** The ticker-entry screen's edits (add with 0, set an amount of at least 0,
      delete) keep every amount a number of at least 0. */
  lemma AmountEditsKeepNonNegative(p: Portfolio, t: Ticker, name: string, a: real)
    requires AllNonNegative(p)
    requires a >= 0.0
    ensures AllNonNegative(AddTicker(p, t, name))
    ensures t in ToMap(p) ==> AllNonNegative(SetAmount(p, t, Some(a)))
    ensures AllNonNegative(Delete(p, t))
  {
    AddKeepsNonNegative(p, t, name);
    if t in ToMap(p) {
      UpdateKeepsNonNegative(p, t, a);
    }
    DeleteKeepsNonNegative(p, t);
  }

  lemma AddKeepsNonNegative(p: Portfolio, t: Ticker, name: string)
    requires AllNonNegative(p)
    ensures AllNonNegative(AddTicker(p, t, name))
  {
    if t !in ToMap(p) {
      var q := AddTicker(p, t, name);
      assert q == p + [Entry(t, Holding(name, Some(0.0)))];
      assert forall i :: 0 <= i < |p| ==> q[i] == p[i];
    }
  }

  lemma {:induction false} DeleteKeepsNonNegative(p: Portfolio, t: Ticker)
    requires AllNonNegative(p)
    ensures AllNonNegative(Delete(p, t))
  {
    if |p| > 0 {
      var pre := p[..|p| - 1];
      assert forall i :: 0 <= i < |pre| ==> pre[i] == p[i];
      DeleteKeepsNonNegative(pre, t);
      var r := Delete(p, t);
      if p[|p| - 1].ticker != t {
        assert r == Delete(pre, t) + [p[|p| - 1]];
        assert forall i :: 0 <= i < |r| - 1 ==> r[i] == Delete(pre, t)[i];
      }
    }
  }

  lemma {:induction false} UpdateKeepsNonNegative(p: Portfolio, t: Ticker, a: real)
    requires AllNonNegative(p)
    requires a >= 0.0
    ensures AllNonNegative(UpdateAmount(p, t, Some(a)))
  {
    if |p| > 0 {
      var pre := p[..|p| - 1];
      assert forall i :: 0 <= i < |pre| ==> pre[i] == p[i];
      UpdateKeepsNonNegative(pre, t, a);
      var r := UpdateAmount(p, t, Some(a));
      assert r[..|p| - 1] == UpdateAmount(pre, t, Some(a));
      assert forall i :: 0 <= i < |p| - 1 ==> r[i] == r[..|p| - 1][i];
    }
  }
}
