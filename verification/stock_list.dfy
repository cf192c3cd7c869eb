/** The search entries of the listed-stock selector: each entry is shown as
    `name (code.T)` and, once selected, the ticker and the company name are
    recovered from that display string by splitting it. */
module StockList {
  import opened Text
  import opened Optional
  import opened Portfolio

  /** The Tokyo Stock Exchange ticker of a listed code: the code followed by
      `.T`. The suffix holds no parenthesis or space, so the ticker can be
      parsed back out of a display entry exactly when the code can. */
  function StockCode(raw: string): (code: string)
    ensures |code| == |raw| + 2
    ensures code[..|raw|] == raw && code[|raw|..] == ".T"
    ensures PlainCode(code) <==> PlainCode(raw)
  {
    var code := raw + ".T";
    assert forall c :: c in code <==> c in raw || c in ".T";
    code
  }

  /** The display entry of a listed stock: `name (code)`. */
  function Display(name: string, code: string): (s: string)
    ensures |s| == |name| + |code| + 3
    ensures s[..|name|] == name && s[|name| + 2..|s| - 1] == code
  {
    name + " (" + code + ")"
  }

  /** The ticker read back from a display entry: what follows the last `(`,
      with every `)` removed. */
  function ParseTicker(s: string): (ticker: string)
    ensures '(' !in ticker && ')' !in ticker
  {
    var pieces := Split(s, '(');
    RemoveChar(pieces[|pieces| - 1], ')')
  }

  /** The company name read back from a display entry: every space-separated
      word except the last, joined again with single spaces. */
  function ParseName(s: string): (name: string)
    ensures ' ' !in s ==> name == []
  {
    var words := Split(s, ' ');
    SplitWithoutSeparator(s, ' ');
    Join(words[..|words| - 1], ' ')
  }

  /** A code that the parse can recover: no parenthesis and no space. */
  predicate PlainCode(code: string)
  {
    '(' !in code && ')' !in code && ' ' !in code
  }

  /** The ticker parse inverts `Display` for every plain code, whatever the name. */
  lemma ParseTickerDisplay(name: string, code: string)
    requires PlainCode(code)
    ensures ParseTicker(Display(name, code)) == code
  {
    var s := Display(name, code);
    var tail := code + ")";
    assert s == (name + " ") + ['('] + tail;
    SplitAround(name + " ", '(', tail);
    assert '(' !in tail;
    SplitAbsent(tail, '(');
    var pieces := Split(s, '(');
    assert pieces[|pieces| - 1] == tail;
    assert RemoveChar(tail, ')') == RemoveChar(code, ')') by {
      RemoveTrailing(code, ')');
    }
    RemoveAbsent(code, ')');
  }

  /** The name parse inverts `Display` for every plain code, whatever the name
      (it may itself contain spaces and parentheses). */
  lemma ParseNameDisplay(name: string, code: string)
    requires PlainCode(code)
    ensures ParseName(Display(name, code)) == name
  {
    var s := Display(name, code);
    var last := "(" + code + ")";
    assert s == name + [' '] + last;
    SplitAround(name, ' ', last);
    assert ' ' !in last;
    SplitAbsent(last, ' ');
    var words := Split(s, ' ');
    assert words[..|words| - 1] == Split(name, ' ');
    JoinSplit(name, ' ');
  }

  /** Selecting the display entry of a listed stock yields its `.T` ticker and its name. */
  lemma SelectedEntryRoundTrip(name: string, raw: string)
    requires PlainCode(raw)
    ensures ParseTicker(Display(name, StockCode(raw))) == StockCode(raw)
    ensures ParseName(Display(name, StockCode(raw))) == name
  {
    ParseTickerDisplay(name, StockCode(raw));
    ParseNameDisplay(name, StockCode(raw));
  }

  /** The plain-code condition is needed: a code with a space loses the
      name's end to the ticker's start. */
  lemma CodeWithSpaceBreaksName()
    ensures ParseName(Display("A", "1 2")) != "A"
  {
    var s := Display("A", "1 2");
    var a, b, c := "A", "(1", "2)";
    assert s == a + [' '] + (b + [' '] + c);
    SplitAround(a, ' ', b + [' '] + c);
    SplitAround(b, ' ', c);
    SplitAbsent(a, ' ');
    SplitAbsent(b, ' ');
    SplitAbsent(c, ' ');
    var words := Split(s, ' ');
    assert words == [a, b, c];
    assert words[..|words| - 1] == [a, b];
    assert Join([a, b], ' ') == a + [' '] + b;
    assert |ParseName(s)| == 4;
  }

  /** Removing `c` from `s + [c]` is removing it from `s`. */
  lemma {:induction false} RemoveTrailing(s: string, c: char)
    ensures RemoveChar(s + [c], c) == RemoveChar(s, c)
  {
    if |s| == 0 {
      assert RemoveChar([c], c) == RemoveChar([c][1..], c);
    } else {
      assert (s + [c])[1..] == s[1..] + [c];
      RemoveTrailing(s[1..], c);
    }
  }

  /** A row of the exchange's listing as read: the code as text and the name,
      which may be missing. */
  datatype ListingRow = ListingRow(code: string, name: Option<string>)

  /** A selectable stock: its ticker, its name and its display entry. */
  datatype ListedStock = ListedStock(code: string, name: string, display: string)

  /** The selector's options: every row with a name, with `.T` appended to its
      code and its display entry built; rows without a name are dropped. */
  function Listing(rows: seq<ListingRow>): (stocks: seq<ListedStock>)
    ensures |stocks| <= |rows|
    ensures forall i :: 0 <= i < |stocks| ==> stocks[i].display == Display(stocks[i].name, stocks[i].code)
    ensures forall i :: 0 <= i < |stocks| ==> exists j :: 0 <= j < |rows| && Lists(rows[j], stocks[i])
  {
    if |rows| == 0 then []
    else
      var pre := rows[..|rows| - 1];
      var row := rows[|rows| - 1];
      var stocks := Listing(pre);
      assert forall j :: 0 <= j < |pre| ==> pre[j] == rows[j];
      if row.name.Some? then
        var code := StockCode(row.code);
        var s := ListedStock(code, row.name.value, Display(row.name.value, code));
        assert Lists(rows[|rows| - 1], s);
        stocks + [s]
      else stocks
  }

  /** Every row with a name becomes an option: `dropna` drops only the rows
      whose display entry is NaN, which are those without a name. */
  lemma {:induction false} ListingHasNamedRow(rows: seq<ListingRow>, j: nat)
    requires j < |rows| && rows[j].name.Some?
    ensures exists i :: 0 <= i < |Listing(rows)| && Lists(rows[j], Listing(rows)[i])
  {
    var n := |rows| - 1;
    var pre := rows[..n];
    if j == n {
      var i := |Listing(rows)| - 1;
      assert Lists(rows[j], Listing(rows)[i]);
    } else {
      assert pre[j] == rows[j];
      ListingHasNamedRow(pre, j);
      var i :| 0 <= i < |Listing(pre)| && Lists(pre[j], Listing(pre)[i]);
      assert Listing(rows)[i] == Listing(pre)[i];
    }
  }

  /** `stock` is the option built from `row`. */
  predicate Lists(row: ListingRow, stock: ListedStock)
  {
    row.name == Some(stock.name) && stock.code == StockCode(row.code)
  }

  /** When every listed code is plain, selecting any option recovers exactly
      its ticker and its name. */
  lemma ListingRoundTrip(rows: seq<ListingRow>, i: nat)
    requires forall j :: 0 <= j < |rows| ==> PlainCode(rows[j].code)
    requires i < |Listing(rows)|
    ensures ParseTicker(Listing(rows)[i].display) == Listing(rows)[i].code
    ensures ParseName(Listing(rows)[i].display) == Listing(rows)[i].name
  {
    var s := Listing(rows)[i];
    var j :| 0 <= j < |rows| && Lists(rows[j], s);
    SelectedEntryRoundTrip(s.name, rows[j].code);
  }

  /** Selecting a display entry: the parsed ticker enters the dict with the
      parsed name and no amount, unless it is already there. */
  function SelectListed(p: Portfolio, display: string): (r: Portfolio)
    ensures Valid(p) ==> Valid(r)
    ensures ParseTicker(display) in ToMap(p) ==> r == p
    ensures ParseTicker(display) !in ToMap(p) ==>
      ToMap(r) == ToMap(p)[ParseTicker(display) := Holding(ParseName(display), None)]
  {
    Select(p, ParseTicker(display), ParseName(display))
  }

  /** Selecting the entry of a listed stock with a plain code adds its `.T`
      ticker under its name with no amount, and changes nothing else. */
  lemma SelectListedStock(p: Portfolio, name: string, raw: string)
    requires PlainCode(raw)
    ensures var t := StockCode(raw);
      && (t in ToMap(p) ==> SelectListed(p, Display(name, t)) == p)
      && (t !in ToMap(p) ==> ToMap(SelectListed(p, Display(name, t))) == ToMap(p)[t := Holding(name, None)])
  {
    SelectedEntryRoundTrip(name, raw);
  }
}
