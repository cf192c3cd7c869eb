/** A price frame: one row per date, one column per ticker. A row's map holds
    the prices of that date; a ticker missing from it is NaN on that date. */
module Frames {
  import opened Optional
  import opened Portfolio

  datatype Row = Row(date: int, prices: map<Ticker, real>)

  datatype Frame = Frame(columns: set<Ticker>, rows: seq<Row>)

  /** No row holds a price for a ticker that is not a column. */
  predicate WellFormed(f: Frame)
  {
    forall i :: 0 <= i < |f.rows| ==> f.rows[i].prices.Keys <= f.columns
  }

  /** Dates strictly increase down the frame, as on a market-data index. */
  predicate SortedRows(rows: seq<Row>)
  {
    forall i, j :: 0 <= i < j < |rows| ==> rows[i].date < rows[j].date
  }

  /** Every price in the frame is above 0. */
  predicate PositivePrices(f: Frame)
  {
    forall i, t :: 0 <= i < |f.rows| && t in f.rows[i].prices ==> f.rows[i].prices[t] > 0.0
  }

  /** `frame[t]`: the ticker's price on each date, NaN where the row lacks it. */
  function Column(f: Frame, t: Ticker): (c: seq<Option<real>>)
    ensures |c| == |f.rows|
    ensures forall i :: 0 <= i < |c| ==> (c[i].Some? <==> t in f.rows[i].prices)
    ensures forall i :: 0 <= i < |c| && c[i].Some? ==> c[i].value == f.rows[i].prices[t]
  {
    seq(|f.rows|, i requires 0 <= i < |f.rows| =>
      if t in f.rows[i].prices then Some(f.rows[i].prices[t]) else None)
  }

  /** The rows dated within `[start, end]`, both ends included, in order. */
  function RestrictRows(rows: seq<Row>, start: int, end: int): (r: seq<Row>)
    ensures |r| <= |rows|
    ensures forall i :: 0 <= i < |r| ==> start <= r[i].date <= end
  {
    if |rows| == 0 then []
    else
      var last := rows[|rows| - 1];
      var kept := RestrictRows(rows[..|rows| - 1], start, end);
      if start <= last.date <= end then kept + [last] else kept
  }

  /** A row is kept exactly when it is in the frame and dated within range. */
  lemma {:induction false} RestrictRowsMembers(rows: seq<Row>, start: int, end: int)
    ensures forall row :: row in RestrictRows(rows, start, end) <==> row in rows && start <= row.date <= end
  {
    if |rows| > 0 {
      var pre := rows[..|rows| - 1];
      RestrictRowsMembers(pre, start, end);
      assert rows == pre + [rows[|rows| - 1]];
    }
  }

  /** Restricting a sorted index keeps it sorted. */
  lemma {:induction false} RestrictRowsSorted(rows: seq<Row>, start: int, end: int)
    requires SortedRows(rows)
    ensures SortedRows(RestrictRows(rows, start, end))
  {
    if |rows| > 0 {
      var pre := rows[..|rows| - 1];
      var last := rows[|rows| - 1];
      RestrictRowsSorted(pre, start, end);
      RestrictRowsMembers(pre, start, end);
      var kept := RestrictRows(pre, start, end);
      assert forall i :: 0 <= i < |kept| ==> kept[i] in pre;
      assert forall i :: 0 <= i < |kept| ==> kept[i].date < last.date;
    }
  }

  /** `frame[start:end]` on the date index. */
  function Restrict(f: Frame, start: int, end: int): (r: Frame)
    ensures r.columns == f.columns
    ensures WellFormed(f) ==> WellFormed(r)
    ensures forall i :: 0 <= i < |r.rows| ==> start <= r.rows[i].date <= end
    ensures forall row :: row in r.rows <==> row in f.rows && start <= row.date <= end
    ensures SortedRows(f.rows) ==> SortedRows(r.rows)
  {
    var r := Frame(f.columns, RestrictRows(f.rows, start, end));
    RestrictRowsMembers(f.rows, start, end);
    if SortedRows(f.rows) then
      RestrictRowsSorted(f.rows, start, end);
      r
    else r
  }

  lemma RestrictStep(rows: seq<Row>, start: int, end: int)
    requires |rows| > 0
    ensures RestrictRows(rows, start, end) ==
      RestrictRows(rows[..|rows| - 1], start, end) + if start <= rows[|rows| - 1].date <= end then [rows[|rows| - 1]] else []
  {
  }

  /** `rows[lo..hi]` is the block of exactly the rows dated within `[start, end]`. */
  predicate InRangeBlock(rows: seq<Row>, start: int, end: int, lo: int, hi: int)
  {
    && 0 <= lo <= hi <= |rows|
    && forall k :: 0 <= k < |rows| ==> (lo <= k < hi <==> start <= rows[k].date <= end)
  }

  /** Row `k` exists and is dated within `[start, end]`. */
  predicate DatedWithin(rows: seq<Row>, k: int, start: int, end: int)
  {
    0 <= k < |rows| && start <= rows[k].date <= end
  }

  /** On a sorted index every row between two in-range rows is in range. */
  lemma InRangeBetween(rows: seq<Row>, start: int, end: int, i: int, j: int)
    requires SortedRows(rows) && 0 <= i <= j < |rows|
    requires start <= rows[i].date <= end && start <= rows[j].date <= end
    ensures forall k :: i <= k <= j ==> start <= rows[k].date <= end
  {
  }

  /** A non-empty in-range block of a sorted prefix that is followed by an
      in-range row must reach the end of the prefix. */
  lemma BlockReachesEnd(rows: seq<Row>, start: int, end: int, lo: int, hi: int)
    requires SortedRows(rows) && |rows| > 0
    requires InRangeBlock(rows[..|rows| - 1], start, end, lo, hi) && lo < hi
    requires start <= rows[|rows| - 1].date <= end
    ensures hi == |rows| - 1
  {
    var n := |rows| - 1;
    assert forall k :: 0 <= k < n ==> rows[..n][k] == rows[k];
    InRangeBetween(rows, start, end, hi - 1, n);
    assert hi < n ==> DatedWithin(rows, hi, start, end);
  }

  /** The block grows by one row when the next row is in range. */
  lemma SliceStepKept(rows: seq<Row>, start: int, end: int, lo: int, hi: int)
    requires SortedRows(rows) && |rows| > 0
    requires InRangeBlock(rows[..|rows| - 1], start, end, lo, hi)
    requires RestrictRows(rows[..|rows| - 1], start, end) == rows[..|rows| - 1][lo..hi]
    requires start <= rows[|rows| - 1].date <= end
    ensures var lo' := if lo == hi then |rows| - 1 else lo;
      InRangeBlock(rows, start, end, lo', |rows|) && RestrictRows(rows, start, end) == rows[lo'..]
  {
    var n := |rows| - 1;
    var pre := rows[..n];
    var lo' := if lo == hi then n else lo;
    if lo < hi {
      BlockReachesEnd(rows, start, end, lo, hi);
    }
    BlockGrows(rows, start, end, lo, hi);
    RestrictStep(rows, start, end);
    assert pre[lo..hi] == pre[lo'..n];
    assert pre[lo'..n] + [rows[n]] == rows[lo'..];
  }

  lemma BlockGrows(rows: seq<Row>, start: int, end: int, lo: int, hi: int)
    requires |rows| > 0
    requires InRangeBlock(rows[..|rows| - 1], start, end, lo, hi)
    requires lo == hi || hi == |rows| - 1
    requires start <= rows[|rows| - 1].date <= end
    ensures InRangeBlock(rows, start, end, if lo == hi then |rows| - 1 else lo, |rows|)
  {
    var n := |rows| - 1;
    var pre := rows[..n];
    var lo' := if lo == hi then n else lo;
    forall k | 0 <= k < |rows|
      ensures lo' <= k < |rows| <==> start <= rows[k].date <= end
    {
      if k < n {
        assert pre[k] == rows[k];
      }
    }
  }

  /** The block stays as it is when the next row is out of range. */
  lemma SliceStepDropped(rows: seq<Row>, start: int, end: int, lo: int, hi: int)
    requires |rows| > 0
    requires InRangeBlock(rows[..|rows| - 1], start, end, lo, hi)
    requires RestrictRows(rows[..|rows| - 1], start, end) == rows[..|rows| - 1][lo..hi]
    requires !(start <= rows[|rows| - 1].date <= end)
    ensures InRangeBlock(rows, start, end, lo, hi) && RestrictRows(rows, start, end) == rows[lo..hi]
  {
    BlockUnchanged(rows, start, end, lo, hi);
    RestrictStep(rows, start, end);
    assert rows[..|rows| - 1][lo..hi] == rows[lo..hi];
  }

  lemma BlockUnchanged(rows: seq<Row>, start: int, end: int, lo: int, hi: int)
    requires |rows| > 0
    requires InRangeBlock(rows[..|rows| - 1], start, end, lo, hi)
    requires !(start <= rows[|rows| - 1].date <= end)
    ensures InRangeBlock(rows, start, end, lo, hi)
  {
    var n := |rows| - 1;
    var pre := rows[..n];
    forall k | 0 <= k < |rows|
      ensures lo <= k < hi <==> start <= rows[k].date <= end
    {
      if k < n {
        assert pre[k] == rows[k];
      }
    }
  }

  /** On a sorted index the restriction is one contiguous block of rows, the
      block of exactly the in-range dates, which is what label slicing returns. */
  lemma {:induction false} RestrictIsSlice(rows: seq<Row>, start: int, end: int)
    requires SortedRows(rows)
    ensures exists lo, hi :: InRangeBlock(rows, start, end, lo, hi) && RestrictRows(rows, start, end) == rows[lo..hi]
  {
    if |rows| == 0 {
      assert InRangeBlock(rows, start, end, 0, 0) && RestrictRows(rows, start, end) == rows[0..0];
    } else {
      var n := |rows| - 1;
      RestrictIsSlice(rows[..n], start, end);
      var lo, hi :| InRangeBlock(rows[..n], start, end, lo, hi) && RestrictRows(rows[..n], start, end) == rows[..n][lo..hi];
      if start <= rows[n].date <= end {
        SliceStepKept(rows, start, end, lo, hi);
        var lo' := if lo == hi then n else lo;
        assert rows[lo'..] == rows[lo'..n + 1];
      } else {
        SliceStepDropped(rows, start, end, lo, hi);
      }
    }
  }
}
