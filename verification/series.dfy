/** One price column as a sequence of optional prices (`None` = NaN), and the
    pandas operations applied to it: `ffill`, `bfill`, their composition, and
    `dropna`. */
module Series {
  import opened Optional

  /** The column holds at least one price. */
  predicate HasObservation<T>(c: seq<Option<T>>)
  {
    exists i :: 0 <= i < |c| && c[i].Some?
  }

  /** The column has no gap left. */
  predicate Complete<T>(c: seq<Option<T>>)
  {
    forall i :: 0 <= i < |c| ==> c[i].Some?
  }

  /** `ffill`: each gap takes the last price before it; a leading gap stays. */
  function FFill<T>(c: seq<Option<T>>): (r: seq<Option<T>>)
    ensures |r| == |c|
    ensures forall i :: 0 <= i < |c| && c[i].Some? ==> r[i] == c[i]
  {
    if |c| == 0 then []
    else
      var pre := FFill(c[..|c| - 1]);
      var last := c[|c| - 1];
      pre + [if last.Some? || |pre| == 0 then last else pre[|pre| - 1]]
  }

  /** `bfill`: each gap takes the next price after it; a trailing gap stays. */
  function BFill<T>(c: seq<Option<T>>): (r: seq<Option<T>>)
    ensures |r| == |c|
    ensures forall i :: 0 <= i < |c| && c[i].Some? ==> r[i] == c[i]
  {
    if |c| == 0 then []
    else
      var rest := BFill(c[1..]);
      [if c[0].Some? || |rest| == 0 then c[0] else rest[0]] + rest
  }

  /** `ffill().bfill()`, the gap policy of the portfolio frame and the benchmark. */
  function FillGaps<T>(c: seq<Option<T>>): (r: seq<Option<T>>)
    ensures |r| == |c|
    ensures forall i :: 0 <= i < |c| && c[i].Some? ==> r[i] == c[i]
    ensures HasObservation(c) ==> Complete(r)
  {
    var d := FFill(c);
    if HasObservation(c) then
      FFillLastPresent(c);
      BFillComplete(d);
      BFill(d)
    else BFill(d)
  }

  /** Reference: the latest price at or before index `i`. */
  function PrevPresent<T>(c: seq<Option<T>>, i: nat): Option<T>
    requires i < |c|
  {
    if c[i].Some? || i == 0 then c[i] else PrevPresent(c, i - 1)
  }

  /** Reference: the earliest price at or after index `i`. */
  function NextPresent<T>(c: seq<Option<T>>, i: nat): Option<T>
    requires i < |c|
    decreases |c| - i
  {
    if c[i].Some? || i == |c| - 1 then c[i] else NextPresent(c, i + 1)
  }

  /** Once any price has appeared, the forward fill has no gap at the end. */
  lemma {:induction false} FFillLastPresent<T>(c: seq<Option<T>>)
    requires HasObservation(c)
    ensures FFill(c)[|c| - 1].Some?
  {
    var pre := c[..|c| - 1];
    if c[|c| - 1].None? {
      var i :| 0 <= i < |c| && c[i].Some?;
      assert pre[i] == c[i];
      FFillLastPresent(pre);
    }
  }

  /** A column whose last entry is a price has no gap after a backward fill. */
  lemma {:induction false} BFillComplete<T>(d: seq<Option<T>>)
    requires |d| > 0 && d[|d| - 1].Some?
    ensures Complete(BFill(d))
  {
    if |d| > 1 {
      assert d[1..][|d| - 2] == d[|d| - 1];
      BFillComplete(d[1..]);
    }
  }

  /** Looking back from `i` does not depend on what follows `i`. */
  lemma {:induction false} PrevPresentPrefix<T>(c: seq<Option<T>>, n: nat, i: nat)
    requires i < n <= |c|
    ensures PrevPresent(c[..n], i) == PrevPresent(c, i)
  {
    if !(c[i].Some? || i == 0) {
      PrevPresentPrefix(c, n, i - 1);
    }
  }

  /** Looking ahead from `i + 1` in the tail is looking ahead from `i + 1` in the column. */
  lemma {:induction false} NextPresentTail<T>(c: seq<Option<T>>, i: nat)
    requires i + 1 < |c|
    ensures NextPresent(c[1..], i) == NextPresent(c, i + 1)
    decreases |c| - i
  {
    if !(c[i + 1].Some? || i + 1 == |c| - 1) {
      NextPresentTail(c, i + 1);
    }
  }

  /** The forward fill is the reference "latest price so far". */
  lemma {:induction false} FFillIsPrevPresent<T>(c: seq<Option<T>>)
    ensures forall i :: 0 <= i < |c| ==> FFill(c)[i] == PrevPresent(c, i)
  {
    if |c| > 0 {
      var n := |c| - 1;
      var pre := c[..n];
      FFillIsPrevPresent(pre);
      forall i | 0 <= i < n
        ensures FFill(c)[i] == PrevPresent(c, i)
      {
        PrevPresentPrefix(c, n, i);
      }
      if n > 0 {
        PrevPresentPrefix(c, n, n - 1);
      }
    }
  }

  /** The backward fill is the reference "next price from here on". */
  lemma {:induction false} BFillIsNextPresent<T>(c: seq<Option<T>>)
    ensures forall i :: 0 <= i < |c| ==> BFill(c)[i] == NextPresent(c, i)
  {
    if |c| > 0 {
      BFillIsNextPresent(c[1..]);
      forall i | 1 <= i < |c|
        ensures BFill(c)[i] == NextPresent(c, i)
      {
        NextPresentTail(c, i - 1);
      }
      if |c| > 1 {
        NextPresentTail(c, 0);
      }
    }
  }

  /** Where nothing precedes `i`, looking ahead in the forward-filled column
      finds the same price as looking ahead in the column. */
  lemma {:induction false} NextPresentAfterFFill<T>(c: seq<Option<T>>, i: nat)
    requires i < |c|
    requires PrevPresent(c, i).None?
    ensures NextPresent(FFill(c), i) == NextPresent(c, i)
    decreases |c| - i
  {
    var d := FFill(c);
    FFillIsPrevPresent(c);
    if i + 1 < |c| {
      if c[i + 1].None? {
        assert PrevPresent(c, i + 1).None?;
        NextPresentAfterFFill(c, i + 1);
      }
    }
  }

  /** `ffill().bfill()` puts at each date the latest price so far, or, before
      the first price, that first price. */
  lemma FillGapsSpec<T>(c: seq<Option<T>>)
    ensures forall i :: 0 <= i < |c| ==>
      FillGaps(c)[i] == if PrevPresent(c, i).Some? then PrevPresent(c, i) else NextPresent(c, i)
  {
    var d := FFill(c);
    FFillIsPrevPresent(c);
    BFillIsNextPresent(d);
    forall i | 0 <= i < |c|
      ensures FillGaps(c)[i] == if PrevPresent(c, i).Some? then PrevPresent(c, i) else NextPresent(c, i)
    {
      if PrevPresent(c, i).None? {
        NextPresentAfterFFill(c, i);
      }
    }
  }

  /** The prices of a gap-free column. */
  function Values<T>(c: seq<Option<T>>): (r: seq<T>)
    requires Complete(c)
    ensures |r| == |c|
    ensures forall i :: 0 <= i < |c| ==> c[i] == Some(r[i])
  {
    seq(|c|, i requires 0 <= i < |c| => c[i].value)
  }

  /** `dropna`: the prices of the column in date order, gaps removed. */
  function DropMissing<T>(c: seq<Option<T>>): (r: seq<T>)
    ensures |r| <= |c|
    ensures |r| == 0 <==> !HasObservation(c)
  {
    if |c| == 0 then []
    else
      var pre := c[..|c| - 1];
      var last := c[|c| - 1];
      assert forall i :: 0 <= i < |pre| ==> pre[i] == c[i];
      assert HasObservation(c) <==> HasObservation(pre) || last.Some?;
      DropMissing(pre) + if last.Some? then [last.value] else []
  }

  /** The first price `dropna` keeps: `dropna().iloc[0]`. */
  function FirstKept<T>(c: seq<Option<T>>): T
    requires HasObservation(c)
  {
    DropMissing(c)[0]
  }

  /** The last price `dropna` keeps: `dropna().iloc[-1]`. */
  function LastKept<T>(c: seq<Option<T>>): T
    requires HasObservation(c)
  {
    var d := DropMissing(c);
    d[|d| - 1]
  }

  /** `dropna` keeps every price the column holds, and nothing else. */
  lemma {:induction false} DropMissingFrom<T>(c: seq<Option<T>>)
    ensures forall x :: x in DropMissing(c) <==> Some(x) in c
  {
    if |c| > 0 {
      var pre := c[..|c| - 1];
      DropMissingFrom(pre);
      assert c == pre + [c[|c| - 1]];
    }
  }

  /** The first and last kept prices are prices of the column. */
  lemma KeptFromColumn<T>(c: seq<Option<T>>)
    requires HasObservation(c)
    ensures Some(FirstKept(c)) in c && Some(LastKept(c)) in c
  {
    DropMissingFrom(c);
  }

  /** A gap-free column loses nothing to `dropna`. */
  lemma {:induction false} DropMissingComplete<T>(c: seq<Option<T>>)
    requires Complete(c)
    ensures DropMissing(c) == Values(c)
  {
    if |c| > 0 {
      var pre := c[..|c| - 1];
      DropMissingComplete(pre);
    }
  }

  /** The last price kept by `dropna` is the latest price of the column. */
  lemma {:induction false} DropMissingLast<T>(c: seq<Option<T>>)
    requires HasObservation(c)
    ensures Some(DropMissing(c)[|DropMissing(c)| - 1]) == PrevPresent(c, |c| - 1)
  {
    var n := |c| - 1;
    var pre := c[..n];
    if c[n].None? {
      var i :| 0 <= i < |c| && c[i].Some?;
      assert pre[i] == c[i];
      DropMissingLast(pre);
      PrevPresentPrefix(c, n, n - 1);
    }
  }

  /** The first price kept by `dropna` is the earliest price of the column. */
  lemma {:induction false} DropMissingFirst<T>(c: seq<Option<T>>)
    requires HasObservation(c)
    ensures Some(DropMissing(c)[0]) == NextPresent(c, 0)
  {
    var n := |c| - 1;
    var pre := c[..n];
    if HasObservation(pre) {
      DropMissingFirst(pre);
      NextPresentPrefix(c, n, 0);
    } else {
      NextPresentFromGap(c, 0);
    }
  }

  /** Looking ahead within a prefix that holds a price agrees with the whole column. */
  lemma {:induction false} NextPresentPrefix<T>(c: seq<Option<T>>, n: nat, i: nat)
    requires i < n <= |c|
    requires NextPresent(c[..n], i).Some?
    ensures NextPresent(c[..n], i) == NextPresent(c, i)
    decreases n - i
  {
    if !(c[i].Some? || i == n - 1) {
      NextPresentPrefix(c, n, i + 1);
    }
  }

  /** If only gaps precede the last entry, looking ahead finds the last entry. */
  lemma {:induction false} NextPresentFromGap<T>(c: seq<Option<T>>, i: nat)
    requires i < |c|
    requires !HasObservation(c[..|c| - 1])
    ensures NextPresent(c, i) == c[|c| - 1]
    decreases |c| - i
  {
    if i < |c| - 1 {
      assert c[..|c| - 1][i] == c[i];
      NextPresentFromGap(c, i + 1);
    }
  }

  /** Both gap policies see the same first and last price: the filled
      column's first and last entries are the first and last prices `dropna`
      keeps. */
  lemma FillAgreesWithDrop<T>(c: seq<Option<T>>)
    requires HasObservation(c)
    ensures FillGaps(c)[0] == Some(DropMissing(c)[0])
    ensures FillGaps(c)[|c| - 1] == Some(DropMissing(c)[|DropMissing(c)| - 1])
  {
    FillGapsSpec(c);
    DropMissingFirst(c);
    DropMissingLast(c);
    if c[0].Some? {
      assert PrevPresent(c, 0) == c[0] == NextPresent(c, 0);
    } else {
      assert PrevPresent(c, 0).None?;
    }
  }

  lemma {:induction false} PrevPresentIn<T>(c: seq<Option<T>>, i: nat)
    requires i < |c|
    ensures PrevPresent(c, i).Some? ==> PrevPresent(c, i) in c
  {
    if !(c[i].Some? || i == 0) {
      PrevPresentIn(c, i - 1);
    }
  }

  lemma {:induction false} NextPresentIn<T>(c: seq<Option<T>>, i: nat)
    requires i < |c|
    ensures NextPresent(c, i).Some? ==> NextPresent(c, i) in c
    decreases |c| - i
  {
    if !(c[i].Some? || i == |c| - 1) {
      NextPresentIn(c, i + 1);
    }
  }

  /** Filling invents no price: every filled entry is a price of the column. */
  lemma FillGapsFromColumn<T>(c: seq<Option<T>>)
    ensures forall i :: 0 <= i < |c| && FillGaps(c)[i].Some? ==> FillGaps(c)[i] in c
  {
    FillGapsSpec(c);
    forall i | 0 <= i < |c|
      ensures FillGaps(c)[i].Some? ==> FillGaps(c)[i] in c
    {
      PrevPresentIn(c, i);
      NextPresentIn(c, i);
    }
  }

  /** The prices of a column that holds at least one, after `ffill().bfill()`. */
  function Filled<T>(c: seq<Option<T>>): (r: seq<T>)
    requires HasObservation(c)
    ensures |r| == |c|
  {
    Values(FillGaps(c))
  }

  /** Every filled price is a price the column holds. */
  lemma FilledFromColumn<T>(c: seq<Option<T>>)
    requires HasObservation(c)
    ensures forall i :: 0 <= i < |c| ==> Some(Filled(c)[i]) in c
  {
    FillGapsFromColumn(c);
  }

  /** The filled prices start and end at the first and last price `dropna` keeps. */
  lemma FilledValuesEnds<T>(c: seq<Option<T>>)
    requires HasObservation(c)
    ensures Filled(c)[0] == FirstKept(c)
    ensures Filled(c)[|c| - 1] == LastKept(c)
  {
    FillAgreesWithDrop(c);
  }
}
