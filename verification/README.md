# Portfolio analysis: a Dafny model of the valuation core

The repository has two Streamlit screens that simulate a stock portfolio over a
historical window.

- **Ticker-entry screen** (`app2.py`). The user types tickers. Each ticker enters
  the portfolio dict with amount 0, and the user sets amounts of at least 0.
  The screen then does the following:
  - refuses to analyse a dict whose amounts sum to 0;
  - shows the composition of the invested holdings;
  - downloads one price column per ticker and fills its gaps with
    `ffill().bfill()`;
  - values the portfolio by buy-and-hold (`amount / first price` shares of each
    holding whose ticker has a column and whose amount is above 0);
  - rebases the value series to 100 beside the rebased TOPIX index;
  - reports total return, annualized return (0 for a span of at most 0 days)
    and a Sharpe ratio from the daily simple returns. The Sharpe ratio is
    reported only when there are daily returns and their sample standard
    deviation is above 0.
- **Listed-stock screen** (`Stocks/app2.py`). The user picks stocks from the
  exchange listing. Each option is shown as `name (code.T)`, and the ticker and
  name are parsed back out of that string. Each selected ticker enters the dict
  with no amount (`None`), and the user confirms amounts. The screen then:
  - keeps the holdings with an amount above 0;
  - cuts the downloaded prices to the closed range `[start, end]`;
  - values each holding between the first and last price that `dropna` keeps;
    holdings with no price or a first price that is not above 0 are skipped;
  - reports the totals and the overall return rate.

The model has these modules:

- `Portfolio`: the dict as a sequence of entries with distinct tickers, plus its
  `ToMap` view. Also its edits: add, select, set amount, delete. Also the
  analyzable subset and the analysis gate.
- `Text`: Python's `split`, `join` and `replace`.
- `StockList`: the listing and the display-string codec.
- `Series`: a price column as `seq<Option<real>>`, with `ffill`, `bfill` and
  `dropna`, and reference definitions "latest price so far" and "next price
  from here".
- `Frames`: a dated price frame, its columns, and the closed-range cut.
- `Valuation`: the ticker-entry screen's value series and rebasing.
- `Performance`: returns, the annualization guard, sample variance and the
  Sharpe guard.
- `Simulation`: the listed-stock screen's per-holding valuation, its totals and
  its outcomes. It also proves that both screens agree when they share a
  frame in which every column holds a price and every price is above 0, every
  holding has an amount above 0, and every holding's ticker is a column: the
  same invested total, and a final total equal to the last value of the
  ticker-entry screen's series.
- `Analysis`: the ticker-entry screen's whole report.

Facts about the code that shape the model:

- `app2.py` reports total return, annualized return and a Sharpe ratio. It
  computes no volatility figure, so none is modelled.
- `app2.py:137` divides the benchmark by its first filled value without a
  guard.
- `app2.py:143` divides each column by its first price, and `app2.py:154`
  divides each amount by its column's first price, both without a guard. The
  listed-stock screen guards its own division (`initial_price > 0`,
  `Stocks/app2.py:131`). The model keeps the guarded branches and states the
  unguarded divisions' assumptions as preconditions (see "Left out").

## Model

| member | source | states |
|---|---|---|
| Portfolio.ValidIff | app2.py:37-38 | a dict modelled as entries is valid exactly when no two entries share a ticker |
| Portfolio.Insert | Stocks/app2.py:53-54 | adding a key that is present returns the dict unchanged; otherwise the map gains exactly that key with that holding; distinct keys are kept |
| Portfolio.AddTicker | app2.py:37-38 | a new ticker enters with amount 0; a present ticker leaves the dict unchanged; nothing else changes |
| Portfolio.Select | Stocks/app2.py:53-54 | a new ticker enters with no amount (`None`); a present one leaves the dict unchanged; nothing else changes |
| Portfolio.UpdateAmount | Stocks/app2.py:79 | the map changes only at the ticker, whose holding keeps its name and takes the new amount; entries keep their tickers and order |
| Portfolio.SetAmount | Stocks/app2.py:78-79 | confirming an amount keeps the key set, sets that ticker's amount, keeps its name, and leaves every other key's holding as it was |
| Portfolio.Delete | Stocks/app2.py:82-83 | the map loses exactly the ticker's key; distinct keys are kept |
| Portfolio.Analyzable | Stocks/app2.py:102 | the subset holds exactly the keys whose amount is a number above 0, with their holdings |
| Portfolio.AnalyzableEmptyIff | Stocks/app2.py:102-105 | the subset is empty exactly when no holding has an amount above 0 |
| Portfolio.TotalAmount | app2.py:77 | with amounts of at least 0 the sum is at least 0 and at least every single amount; a dict whose amounts are all 0 sums to 0 |
| Portfolio.AnalysisGate | app2.py:77 | the gate opens only when some amount is not 0; with amounts of at least 0 it opens whenever some amount is above 0 |
| Portfolio.TotalAmountPositive | app2.py:77 | with amounts of at least 0 the sum is at least 0, and above 0 exactly when some amount is above 0 |
| Portfolio.AnalysisGateIff | app2.py:77-83 | the analysis gate (non-empty dict with a non-zero sum) opens exactly when some amount is above 0 |
| Portfolio.AmountEditsKeepNonNegative | app2.py:56-66 | adding with 0, setting an amount of at least 0 and deleting keep every amount a number of at least 0 |
| Text.Split | Stocks/app2.py:51 | `split` returns at least one piece and no piece holds the separator |
| Text.RemoveChar | Stocks/app2.py:51 | `replace(c, '')` leaves no `c`, is no longer than the string, and holds any other character exactly when the string does |
| Text.RemoveCharAppend | Stocks/app2.py:51 | removing from a concatenation is removing from each part and concatenating, so the kept characters keep their order and count |
| Text.RemoveCharSingle | Stocks/app2.py:51 | a single character is dropped when it is `c` and kept otherwise; with `RemoveCharAppend` this fixes the result for every string |
| Text.Join | Stocks/app2.py:52 | pieces free of the separator join to a string holding the separator exactly when there are two or more pieces; `JoinSplit` states that join inverts split |
| Text.JoinSplit | Stocks/app2.py:52 | joining the pieces of a split with the separator rebuilds the string |
| Text.SplitAround | Stocks/app2.py:51-52 | a separator occurrence splits the string into the pieces before it followed by the pieces after it |
| Text.SplitAbsent | Stocks/app2.py:51-52 | a string without the separator splits into itself alone |
| Text.SplitWithoutSeparator | Stocks/app2.py:52 | for any string: when it holds no separator its split is the string alone |
| StockList.StockCode | Stocks/app2.py:25 | the ticker is the code followed by `.T`; it is free of parentheses and spaces exactly when the code is, so the display parse can recover it exactly when it can recover the code |
| StockList.ParseTicker | Stocks/app2.py:51 | the parsed ticker never contains a parenthesis |
| StockList.ParseName | Stocks/app2.py:52 | an entry without a space has an empty name; `ParseNameDisplay` states that the parse recovers the name of any display entry with a plain code |
| StockList.ParseTickerDisplay | Stocks/app2.py:51 | the ticker parse recovers the code from any display entry whose code has no parenthesis or space, whatever the name |
| StockList.ParseNameDisplay | Stocks/app2.py:52 | the name parse recovers the name from any such display entry, even a name with spaces or parentheses |
| StockList.SelectedEntryRoundTrip | Stocks/app2.py:50-52 | selecting the entry of a listed stock with a plain code yields its `.T` ticker and its name |
| StockList.CodeWithSpaceBreaksName | Stocks/app2.py:52 | a code with a space breaks the name parse: the entry for name `A` and code `1 2` does not parse back to `A` |
| StockList.Listing | Stocks/app2.py:25-27 | every option comes from a listing row with a name, carries that row's `.T` code and name, and its display entry is built from them |
| StockList.ListingHasNamedRow | Stocks/app2.py:25-27 | every listing row with a name becomes an option |
| StockList.ListingRoundTrip | Stocks/app2.py:46-52 | when every listed code is plain, selecting any option recovers exactly its ticker and its name |
| StockList.SelectListed | Stocks/app2.py:50-54 | a selected display entry adds the parsed ticker under the parsed name with no amount, unless the ticker is present |
| StockList.SelectListedStock | Stocks/app2.py:50-54 | selecting a listed stock with a plain code adds its `.T` ticker under its name with no amount, or changes nothing when present |
| Series.FFill | app2.py:130 | the forward fill keeps the length and every present price |
| Series.BFill | app2.py:130 | the backward fill keeps the length and every present price |
| Series.FillGaps | app2.py:130 | `ffill().bfill()` keeps the length and every present price, and leaves no gap in a column that holds a price |
| Series.FFillIsPrevPresent | app2.py:130 | the forward fill equals the reference "latest price at or before each date" |
| Series.BFillIsNextPresent | app2.py:130 | the backward fill equals the reference "earliest price at or after each date" |
| Series.FillGapsSpec | app2.py:130 | each filled entry is the latest price so far or, before the first price, the first price |
| Series.FillGapsFromColumn | app2.py:130 | filling invents no price: each filled entry is a price of the column |
| Series.Filled | app2.py:130 | the filled prices of a column that holds one have one entry per date |
| Series.FilledFromColumn | app2.py:130 | each filled price is a price the column holds |
| Series.DropMissing | Stocks/app2.py:124 | `dropna` is no longer than the column, and empty exactly when the column holds no price |
| Series.DropMissingFrom | Stocks/app2.py:124 | `dropna` keeps every price the column holds and nothing else |
| Series.DropMissingComplete | Stocks/app2.py:124 | a gap-free column loses nothing to `dropna` |
| Series.DropMissingFirst | Stocks/app2.py:128 | the first kept price is the column's earliest price |
| Series.DropMissingLast | Stocks/app2.py:129 | the last kept price is the column's latest price |
| Series.FirstKept | Stocks/app2.py:128 | `dropna().iloc[0]`; its meaning is stated by `DropMissingFirst` (the earliest price) and `KeptFromColumn` (a price of the column) |
| Series.LastKept | Stocks/app2.py:129 | `dropna().iloc[-1]`; its meaning is stated by `DropMissingLast` (the latest price) and `KeptFromColumn` (a price of the column) |
| Series.KeptFromColumn | Stocks/app2.py:128-129 | the first and last kept prices are prices of the column |
| Series.FillAgreesWithDrop | Stocks/app2.py:128-129 | the filled column starts and ends at the first and last price `dropna` keeps |
| Series.FilledValuesEnds | Stocks/app2.py:128-129 | the filled prices start and end at the first and last kept prices |
| Frames.Column | app2.py:129 | a column has one entry per date: the row's price for the ticker where the row has one, and NaN exactly where it has none |
| Frames.RestrictRows | Stocks/app2.py:16 | the kept rows are at most the frame's rows, all dated within `[start, end]` |
| Frames.RestrictRowsMembers | Stocks/app2.py:16 | a row is kept exactly when it is in the frame and dated within range |
| Frames.RestrictRowsSorted | Stocks/app2.py:16 | restricting a sorted index keeps it sorted |
| Frames.Restrict | Stocks/app2.py:16 | the cut frame keeps the columns and exactly the in-range rows, and keeps well-formedness and sortedness |
| Frames.RestrictIsSlice | Stocks/app2.py:16 | on a sorted index the cut is one contiguous block of exactly the in-range rows, as label slicing returns |
| Valuation.FilledColumn | app2.py:129-130 | a filled column has one price per date, all above 0 when the frame's prices are |
| Valuation.FilledColumnEnds | app2.py:130 | a filled column starts and ends at the first and last price `dropna` keeps |
| Valuation.HoldingValue | app2.py:154-155 | on every date, value times first price equals amount times that date's price; the first value is the amount |
| Valuation.DailyValue | app2.py:148-155 | the value series has exactly one entry per date of the frame |
| Valuation.ContributedAmount | app2.py:150 | the contributing amounts sum to at least 0 |
| Valuation.FirstValueIsInvested | app2.py:154-155 | on the first date the value is the sum of the contributing amounts |
| Valuation.DailyValueSign | app2.py:158 | with positive prices the value is above 0 on every date when some holding contributes, and 0 on every date otherwise |
| Valuation.HoldingValuePositive | app2.py:154-155 | a positive amount at positive prices is above 0 on every date |
| Valuation.DailyValueNonNegative | app2.py:148-155 | with positive prices the value is never negative |
| Valuation.ContributingEntries | app2.py:150 | a holding is selected exactly when it is in the dict, its ticker has a column and its amount is above 0 |
| Valuation.OnlyContributorsCount | app2.py:149-150 | holdings without a column or without a positive amount change nothing |
| Valuation.Rebase | app2.py:158-161 | empty exactly when the series is empty or its first value is not above 0; otherwise same length, starts at 100, and each entry is the value scaled by 100 / first |
| Valuation.RebaseScaleInvariant | app2.py:159 | a series and any positive multiple of it rebase alike |
| Valuation.RebaseIdempotent | app2.py:159 | rebasing a rebased series changes nothing |
| Performance.TotalReturn | app2.py:196-198 | the total return is `(last / first - 1) * 100`; 0 for equal ends; positive or negative exactly as the last value is above or below the first |
| Performance.YearsElapsed | app2.py:201 | the span in years is positive exactly when the span in days is, and is days / 365.25 |
| Performance.AnnualizedReturn | app2.py:201-202 | 0 when the span is at most 0 days; otherwise the compounded yearly rate through `pow` |
| Performance.FlatAnnualizesToZero | app2.py:202 | a total return of 0 annualizes to 0 over any span |
| Performance.SimpleReturn | app2.py:209 | the return from `a` to `b` grows `a` into `b` |
| Performance.DailyReturns | app2.py:209 | one return fewer than values, each growing a value into the next |
| Performance.ReturnsCompound | app2.py:209 | compounding the daily returns from the first value rebuilds the whole series |
| Performance.FlatIffZeroReturns | app2.py:209 | every daily return is 0 exactly when the series is flat |
| Performance.SampleVariance | app2.py:212 | the sample variance is undefined exactly for fewer than two returns |
| Performance.SquaredDeviationsZeroIff | app2.py:212 | the squared deviations are at least 0, and 0 exactly when every value equals the centre |
| Performance.VariancePositiveIff | app2.py:212-214 | the sample variance is above 0 exactly when there are two or more returns, not all equal |
| Performance.SharpeRatio | app2.py:209-220 | no ratio without daily returns; a ratio exactly when there are two or more returns, not all equal |
| Performance.FlatHasNoSharpe | app2.py:209-218 | a flat value series never gets a Sharpe ratio |
| Simulation.Valuate | Stocks/app2.py:124-135 | a row exactly when the column keeps a price and the first is above 0; its final value times the first price is amount times the last price; profit is final minus amount; rate times amount is profit times 100; profit is positive or negative exactly as the last price is above or below the first |
| Simulation.UnchangedPriceNoProfit | Stocks/app2.py:132-135 | an unchanged price gives final value equal to the amount, zero profit and a zero rate |
| Simulation.Results | Stocks/app2.py:122-146 | at most one row per holding, each with a positive initial investment |
| Simulation.SumInitialPositive | Stocks/app2.py:137 | the invested total is above 0 exactly when there is a row |
| Simulation.SkippedHoldingChangesNothing | Stocks/app2.py:126-131 | a holding that cannot be valued adds no row and nothing to either total |
| Simulation.ValuedHoldingAdds | Stocks/app2.py:137-146 | a valued holding appends its row and adds its amount and final value to the totals |
| Simulation.Simulate | Stocks/app2.py:118-146 | the loop computes exactly the rows and the two sums of their amounts and final values; the invested total is above 0 exactly when there is a row |
| Simulation.ReturnRate | Stocks/app2.py:153 | rate times invested is profit times 100 when something was invested, and 0 otherwise |
| Simulation.EmptyFrame | Stocks/app2.py:114 | a frame is `empty` when it has no rows or no columns; `Screen` shows no price data exactly then |
| Simulation.Tally | Stocks/app2.py:137-160 | nothing to show exactly when no row was valued; otherwise the valued rows, invested and final totals equal to the rows' sums (invested above 0), profit as final minus invested, rate as profit per invested in percent |
| Simulation.Screen | Stocks/app2.py:104-160 | no investment, no price data, a missing column, or nothing valued (the warning when no holding was valued), each exactly under its condition, so a report appears exactly when the gates pass and some holding was valued; a report carries the valued rows of the subset and totals equal to their sums, with profit and rate as on screen |
| Simulation.Simulation | Stocks/app2.py:101-163 | the outcome's kind is decided by the analyzable subset, the cut frame's emptiness, a missing column in the download, and whether any holding was valued; a report carries the rows valued over the analyzable subset and the cut frame, and totals equal to their sums, with profit and rate as on screen |
| Simulation.RunSimulation | Stocks/app2.py:101-163 | the button handler's loop produces the same outcome as the functional definition |
| Simulation.KeptPricesPositive | Stocks/app2.py:128-131 | with positive prices the first and last kept prices are above 0 |
| Simulation.ValuateIsLastHoldingValue | Stocks/app2.py:132-133 | valuing between the first and last kept price gives the last value of the buy-and-hold series over prices with the same ends |
| Simulation.ValuateMatchesHoldingValue | Stocks/app2.py:128-133 | a holding's final value equals the last entry of the ticker-entry screen's value series for it |
| Simulation.SimulationMatchesDailyValue | Stocks/app2.py:137-138 | when the screens share a frame with a date, a price in every column and every price above 0, every holding has an amount above 0 and every holding's ticker is a column, they agree: one row per holding, the invested total is the first-day value, the final total is the last-day value |
| Analysis.Composition | app2.py:88-91 | one slice per holding with an amount above 0, with its name and amount, in dict order |
| Analysis.CompositionAddsUp | app2.py:88-91 | with amounts of at least 0 the slices add up to the summed amount |
| Analysis.Summarize | app2.py:196-202 | the total return of a series rebased to 100 is its last value minus 100; the annualized return is 0 for a span of at most 0 days and otherwise grows 100 into 100 times `pow(1 + total/100, 365.25/days)` |
| Analysis.TotalReturnRebase | app2.py:196-198 | rebasing does not change the total return |
| Analysis.Benchmark | app2.py:135-140 | the benchmark is empty exactly when the download failed, brought no price, or its first filled price is not above 0; otherwise one entry per date, starting at 100, each the filled index price scaled by 100 over the first filled price |
| Analysis.BenchmarkSummary | app2.py:222-228 | the benchmark summary is shown exactly when there is a benchmark trajectory; its total return is the rebased last value minus 100, its annualized return 0 for a span of at most 0 days and the compounding formula otherwise |
| Analysis.ValueNonZero | app2.py:209 | once some holding contributes, no value is 0, so the daily returns are defined |
| Analysis.RebasedIff | app2.py:158-161 | the rebased trajectory exists exactly when the frame has a date and some holding contributes |
| Analysis.Figures | app2.py:195-220 | figures exactly when the rebased trajectory exists; total return as on the unscaled series; annualized 0 for a non-positive span and the compounding formula otherwise; no daily returns exactly for a single date; a Sharpe ratio exactly when there are three or more dates and the daily returns are not all equal |
| Analysis.Analyze | app2.py:77-228 | waits exactly when the gate is closed; no stock data exactly when no column was downloaded; otherwise the composition, the value series `DailyValue` (one value per date, starting at the invested amount), its rebased trajectory `Rebase`, the figures, and the benchmark with its summary |
| Analysis.ShownFigures | app2.py:207-228 | on the analysed report the benchmark's total return is its rebased last value minus 100 and its annualized return 0 for a non-positive span; the Sharpe ratio is shown exactly when there are three or more dates whose daily returns are not all equal |
| Analysis.AnalysisWaitsIff | app2.py:77-78 | with amounts of at least 0 the analysis waits exactly when no holding has an amount above 0 |
| Analysis.ValueOfAnalyzable | app2.py:149-155 | the value series of the dict equals that of its holdings with an amount above 0 |

## Left out

- Streamlit widgets, forms, session state, `st.rerun`, messages, layout and
  `@st.cache_data`. The model is pure functions over the dict and the frames.
- Network I/O is left out. This covers `yf.download`, `yf.Ticker(...).info`
  and the exchange's Excel listing. Downloaded prices, the benchmark index and
  the listing rows are parameters.
- The name lookup (`longName`, then `shortName`, then the ticker) and the
  `.upper()` of the typed ticker are left out: the name is a parameter of
  `AddTicker`.
- The download window is not modelled. It starts 7 days before `start` and
  ends one day before `end`, because yfinance's end is exclusive. The
  downloaded frame is an input; only the `[start:end]` cut is modelled.
- pandas alignment in `pd.DataFrame(stock_prices)` is taken as given: a frame
  is rows of dated prices, and a missing key is NaN.
- Valuation.DailyValue requires that every column hold a price (`Observed`) and
  that every price be above 0. The source divides by the first filled price
  without a guard. Real numbers have no `inf` or NaN to model a zero or
  all-gap column.
- Analysis.Benchmark: the source divides by the first filled value without a
  guard. A first value that is not above 0, or a benchmark column with no
  price at all (which the source turns into a NaN series), is modelled as the
  empty benchmark.
- Any exception in the benchmark download is modelled only by its effect:
  the absent benchmark (`None`), which rebases to the empty series.
- The per-ticker download warnings are not modelled. A failed or empty
  per-ticker download is simply a missing column.
- The dead branch at app2.py line 81 is not modelled. It cannot be reached
  once the gate at line 77 has passed.
- Simulation.Simulation: the source raises a `KeyError` inside the loop when a
  ticker has no column, and shows its catch-all error. The model decides this
  up front as `UnexpectedError`. The source may reach the error after some rows
  were computed, but those rows are never shown, so the outcome is the same.
- Fractional powers and square roots are not part of Dafny's `real`. The
  annualized return takes `pow` as a parameter and the Sharpe ratio takes
  `sqrt` (assumed positive on positive inputs). Their values are not computed,
  only the guards and the formula around them.
- IEEE floating point, NaN propagation and display rounding (`:,.0f`, `:.2f`)
  are not modelled. Prices and amounts are `real`. Amounts are `int` in the
  widgets, and `real` covers them.
- A listing row whose code is NaN becomes the string `nan.T` in the source.
  The model reads codes as strings and does not model NaN codes.
- The downloader's version-dependent `Adj Close` column is taken as given.
- Plotly charts are not modelled. The pie chart is modelled only as its
  slices (`Analysis.Composition`).
