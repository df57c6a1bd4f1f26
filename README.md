# Dogecoin dashboard: a verified model of its data and metrics core

The dashboard (`app/src/dashboard.py`) is a Streamlit page that simulates a DOGE-USD
price. It keeps the simulated trades in a sqlite table and redraws itself every five
seconds. This project models what the page computes, independent of the UI:

- **Price generator.** `generate_gbm_price` takes one geometric-Brownian-motion step and
  clamps the result to `[0.01, 100.0]` (`PriceProcess`).
- **Trades table.** The table is an append-only sequence of rows (`TradeStore.Store`).
  On an empty table, `init_db` backfills 360 rows, 5 seconds apart, from the start of
  the minute 30 minutes before the clock reading. The price is seeded with 0.08 and
  stepped once before every row, so the first row already holds one generator step
  from 0.08.
- **Candlestick chart.** `create_candlestick` works in these steps (`Resampler`):
  - sort the rows by time;
  - cut them into 30-second bins aligned to multiples of 30 s;
  - reduce each bin to first/max/min/last;
  - forward-fill empty bins;
  - keep the rows whose bin starts after the last bin's start minus 30 minutes;
  - set the x-range to those 30 minutes.
- **Metrics boxes** (`Indicators`):
  - the latest price;
  - the percent change;
  - the 12-tick moving average;
  - the Bollinger bands two sample standard deviations either side of it;
  - the Bullish/Bearish trend.
- **Depth ladder.** Five bid and five ask levels are derived from the current price
  (`Depth`).
- **Main loop** (`Dashboard`). Each turn steps the price, inserts a row at the clock
  reading, and shows one of two views:
  - a warm-up progress bar while the window query returns fewer than 12 rows;
  - otherwise the live view.

These are not modelled but passed in as inputs:

- the clock;
- the random draws, given as the growth factor `exp(drift + shock)` of each step;
- the square root behind `rolling(12).std()`;
- the rows the window query (`WHERE timestamp >= datetime('now', '-30 minutes', 'utc')`) returns.

Prices are `real` and timestamps are whole seconds.

The state-changing parts are imperative:

- `Store.InitDb` is the backfill loop over the table's row sequence.
- `Driver.Cycle` is one turn of `while True`.
- `Driver.Run` runs a sequence of turns.

Each of them is proved against the pure functions that specify it.

## Model

| member | source | states |
|---|---|---|
| PriceProcess.Clamp | app/src/dashboard.py:32 | the result is always in [0.01, 100]; an in-range price is unchanged; a price below the range becomes 0.01 and one above it becomes 100 |
| PriceProcess.ClampIdempotent | app/src/dashboard.py:32 | clamping a clamped price changes nothing |
| PriceProcess.ClampMonotone | app/src/dashboard.py:32 | clamping preserves the order of two prices |
| PriceProcess.GbmPrice | app/src/dashboard.py:26-32 | every generated price lies in [0.01, 100], whatever the previous price and the draw |
| PriceProcess.GbmPriceUnclamped | app/src/dashboard.py:31-32 | when previous × growth is in range, the step returns exactly previous × growth |
| PriceProcess.GbmPriceNeutralStep | app/src/dashboard.py:31-32 | a step with growth factor 1 (zero drift plus shock) keeps an in-range price |
| PriceProcess.PricePath | app/src/dashboard.py:46-48 | repeated steps give one price per draw, each in [0.01, 100] |
| PriceProcess.PricePathPrefix | app/src/dashboard.py:46-48 | the prices of the first k draws are the first k prices of the path |
| PriceProcess.PricePathStep | app/src/dashboard.py:48 | price i is the clamped step from price i-1, and the first price is the step from the start price |
| TradeStore.BackfillBase | app/src/dashboard.py:44 | the backfill base lies on a whole minute, and is the last minute boundary at or before now - 30 min |
| TradeStore.Stamped | app/src/dashboard.py:46-47 | row i carries price i at timestamp base + 5·i |
| TradeStore.BackfillRows | app/src/dashboard.py:43-49 | the rows the backfill loop inserts; its own ensures: one row per draw. Its properties are in `BackfillStep`, `BackfillSchedule`, `BackfillPrecedesNow` and `Store.InitDb` |
| TradeStore.BackfillStep | app/src/dashboard.py:46-49 | loop iteration i computes the next price from the previous one and appends exactly one row, at base + 5·i |
| TradeStore.BackfillSchedule | app/src/dashboard.py:44-49 | the backfill has 360 rows at base + 5·i with strictly increasing timestamps, from base to base + 1795; every price is in range; the first price is the step from 0.08 and each later price is the step from the row before |
| TradeStore.BackfillPrecedesNow | app/src/dashboard.py:44-47 | every backfilled row is at least 5 s older than the clock reading that produced it |
| TradeStore.Store.constructor | app/src/dashboard.py:37-40 | opening the table exposes the rows it already holds |
| TradeStore.Store.Insert | app/src/dashboard.py:106 | an insert appends the row at the end and changes nothing else; nothing is checked |
| TradeStore.Store.InitDb | app/src/dashboard.py:43-50 | a non-empty table is left untouched; an empty table afterwards holds exactly the 360-row backfill for that clock reading and those draws |
| Resampler.InsertByTime | app/src/dashboard.py:70 | one insertion step of the time sort; its own ensures: the result is one longer. Its properties are in `InsertPermutes` and `InsertSorted` |
| Resampler.InsertPermutes | app/src/dashboard.py:70 | inserting a tick adds exactly that tick and drops none |
| Resampler.InsertSorted | app/src/dashboard.py:70 | inserting into a time-ordered run keeps it time-ordered |
| Resampler.SortByTime | app/src/dashboard.py:70 | `sort_index` yields a time-ordered frame of the same length |
| Resampler.SortPermutes | app/src/dashboard.py:70 | the sorted frame is a permutation of the input rows |
| Resampler.SortSortedIdentity | app/src/dashboard.py:70 | sorting an already ordered frame leaves it unchanged |
| Resampler.BinStart | app/src/dashboard.py:73 | a tick's bin starts on a multiple of 30 s, at most 30 s before the tick |
| Resampler.BinStartMonotone | app/src/dashboard.py:73 | a later tick never lands in an earlier bin |
| Resampler.BinsApart | app/src/dashboard.py:73 | two bin starts differ by a whole number of 30-second bins |
| Resampler.Bucket | app/src/dashboard.py:73-77 | the ticks of one 30-second bin, in frame order; no contract of its own. Its properties are in `BucketMembers`, `BucketSorted` and `ResampleRows` |
| Resampler.BucketMembers | app/src/dashboard.py:73 | a bin's bucket holds exactly the ticks that fall in that bin |
| Resampler.BucketSorted | app/src/dashboard.py:73 | the bucket of a time-ordered frame is time-ordered, so `first`/`last` are the earliest and the latest tick |
| Resampler.High | app/src/dashboard.py:75 | the `'max'` of a non-empty bin; no contract of its own. Its property is in `HighIsMax` |
| Resampler.Low | app/src/dashboard.py:76 | the `'min'` of a non-empty bin; no contract of its own. Its property is in `LowIsMin` |
| Resampler.HighIsMax | app/src/dashboard.py:75 | `max`: no price of the bin exceeds High, and some price equals it |
| Resampler.LowIsMin | app/src/dashboard.py:76 | `min`: no price of the bin is below Low, and some price equals it |
| Resampler.Aggregate | app/src/dashboard.py:73-77 | a bin's candle is NaN (None) exactly when the bin is empty |
| Resampler.AggregateWellFormed | app/src/dashboard.py:73-77 | the candle of a non-empty bin has low <= open, close <= high, and its high and low are prices of the bin |
| Resampler.Bins | app/src/dashboard.py:73 | the bins from a start number exactly `count` |
| Resampler.BinRow | app/src/dashboard.py:73-77 | the row of one bin, its start and the candle of its bucket; no contract of its own. Its property is in `BinsAt` and `BinsRows` |
| Resampler.BinsAt | app/src/dashboard.py:73 | row k is the candle of the bin k·30 s after the first |
| Resampler.BinsRows | app/src/dashboard.py:73-77 | every resampled row holds the aggregate of its own bin |
| Resampler.Resample | app/src/dashboard.py:73-77 | `resample('30S').agg(...)`: one row per bin from the first tick's bin to the last tick's; no contract of its own. Its properties are in `ResampleLayout`, `ResampleRows`, `ResampleCovers` and `ResampleEndsFilled` |
| Resampler.ResampleLayout | app/src/dashboard.py:73 | resampling yields contiguous 30-second rows, from the first tick's bin to the last tick's bin |
| Resampler.ResampleRows | app/src/dashboard.py:73-77 | each resampled row is the first/max/min/last of exactly the ticks in its bin |
| Resampler.ResampleCovers | app/src/dashboard.py:73 | every tick falls in the bin of some row |
| Resampler.ResampleEndsFilled | app/src/dashboard.py:73-77 | the first and last rows are never empty |
| Resampler.ForwardFill | app/src/dashboard.py:78 | `ffill()`; its own ensures: the length is kept. Its properties are in `ForwardFillRows`, `ForwardFillNoGaps`, `FilledFromLatestRow` and `ForwardFillWellFormed` |
| Resampler.ForwardFillRows | app/src/dashboard.py:78 | `ffill` keeps every bin start and every non-empty row; it copies the previous filled row into an empty one and leaves a leading empty row empty |
| Resampler.ForwardFillNoGaps | app/src/dashboard.py:78 | after `ffill` of a frame whose first row is filled, no row is empty, and each value is that of the nearest non-empty row at or before it: some non-empty row `j <= k` with every row after `j` up to `k` empty |
| Resampler.FilledFromLatestRow | app/src/dashboard.py:74-78 | on contiguous bins that cover the ticks and hold each bin's candle, filled row `i` is the candle of a non-empty bin `j <= i`, and no tick lies after bin `j` and before the end of bin `i` |
| Resampler.ForwardFillWellFormed | app/src/dashboard.py:78 | after `ffill` every row holds a well-formed candle |
| Resampler.DropThrough | app/src/dashboard.py:81 | the slice `last('30T')` takes after `searchsorted(side='right')`; its own ensures: the result is no longer than the input. Its properties are in `DropThroughRows` |
| Resampler.DropThroughRows | app/src/dashboard.py:81 | the trim keeps a suffix whose first row starts after the cutoff; every dropped row starts at or before it |
| Resampler.LastWindow | app/src/dashboard.py:81 | `last('30T')`; no contract of its own. Its properties are in `LastWindowKeepsAll` and `LastWindowShape` |
| Resampler.LastWindowKeepsAll | app/src/dashboard.py:81 | when the first row already starts after the cutoff, `last('30T')` keeps every row |
| Resampler.LastWindowShape | app/src/dashboard.py:81 | on contiguous rows, `last('30T')` keeps a non-empty contiguous suffix of at most 60 rows, ending with the last row and all starting after last - 30 min; it drops only rows at or before that cutoff |
| Resampler.SortedMembers | app/src/dashboard.py:69-70 | sorting neither adds nor loses a row |
| Resampler.FilledShape | app/src/dashboard.py:69-78 | the filled frame is non-empty and contiguous, ends at the latest tick's bin, and every row is filled and well formed |
| Resampler.TrimmedWellFormed | app/src/dashboard.py:78-81 | trimming keeps every candle filled and well formed |
| Resampler.SortedLast | app/src/dashboard.py:70 | no tick of a sorted frame is later than its last one |
| Resampler.LatestTick | app/src/dashboard.py:69-70 | the last sorted tick is an input row, and no input row lies in a later bin |
| Resampler.Candles | app/src/dashboard.py:67-81 | the candle rows of the figure, sort then resample then `ffill` then `last('30T')`; no contract of its own. Its properties are in `CandlesShape`, `CandleFromBucket`, `CandleSourceRow` and `EmptyBinCandle` |
| Resampler.CreateCandlestick | app/src/dashboard.py:67-93 | `create_candlestick`: the candles and the x-range; no contract of its own. Its properties are in `CandlestickShape` |
| Resampler.CandlestickShape | app/src/dashboard.py:67-92 | there is a chart exactly when there is a row. Its candles number 1 to 60, are contiguous, filled and well formed, and lie in an x-range 30 minutes wide. The range ends at the latest tick's bin, every tick's bin is at or before that end, and some tick lies in the last bin |
| Resampler.CandlesShape | app/src/dashboard.py:67-81 | for a non-empty frame: 1 to 60 contiguous well-formed candles; the last starts at the latest tick's bin and all start within the 30 minutes before it |
| Resampler.TrimmedCandles | app/src/dashboard.py:81 | trimming a contiguous filled frame gives 1 to 60 contiguous well-formed candles within 30 minutes of its last row |
| Resampler.CandleFromBucket | app/src/dashboard.py:69-81 | a plotted candle with ticks in its bin is the first/max/min/last of exactly those ticks in time order; one with an empty bin repeats the previous candle |
| Resampler.CandleSourceRow | app/src/dashboard.py:69-81 | every plotted candle, the first included, is the candle of a non-empty resampled bin at or before its own, with no tick after that bin and before the end of the candle's bin |
| Resampler.EmptyBinCandle | app/src/dashboard.py:74-81 | a plotted candle whose bin is empty is the candle of the latest non-empty resampled bin strictly before it; for the first plotted candle that bin can lie before the trimmed 30 minutes |
| Indicators.Trailing | app/src/dashboard.py:62 | the rolling window is exactly the last 12 prices |
| Indicators.CalculateMetrics | app/src/dashboard.py:57-65 | from 12 rows on the metrics exist and report the latest row's price; below 12 rows the model has no metrics (see "Left out"). The percent change is stated in `ChangeVsPrevious` |
| Indicators.Sum | app/src/dashboard.py:62 | the sum behind the rolling mean; no contract of its own. Its properties are in the `Sum…` lemmas used by the mean lemmas |
| Indicators.Mean | app/src/dashboard.py:62 | `rolling(12).mean()` of the last 12 prices; no contract of its own. Its properties are in `MeanWithinBounds`, `MeanBetweenExtremes`, `MeanConstant` and `MovingAverageBounds` |
| Indicators.SquaredDeviations | app/src/dashboard.py:63-64 | the sum of squared deviations behind `std()`; no contract of its own. Its properties are in `VarianceNonNegative` and `FlatWindow` |
| Indicators.SampleVariance | app/src/dashboard.py:63-64 | the ddof=1 variance whose square root `rolling(12).std()` takes; no contract of its own. Its properties are in `VarianceNonNegative`, `FlatWindow` and `BandsBracketMean` |
| Indicators.ChangePct | app/src/dashboard.py:61 | `change_pct`, `None` for a zero previous price; no contract of its own. Its property is in `ChangePctSign` |
| Indicators.TrendOf | app/src/dashboard.py:134 | Bullish exactly when the price is above the 12-tick MA; no contract of its own. Its properties are in `NewHighIsBullish`, `NewLowIsBearish`, `FlatWindow` and `WarmUpGate` |
| Indicators.MeanWithinBounds | app/src/dashboard.py:62 | a mean lies within any bounds of its values |
| Indicators.MeanBetweenExtremes | app/src/dashboard.py:62 | some value is at or below the mean and some value at or above it |
| Indicators.MeanConstant | app/src/dashboard.py:62 | the mean of equal values is that value |
| Indicators.MovingAverageBounds | app/src/dashboard.py:62 | the 12-tick MA lies within any bounds of the last 12 prices and between their lowest and highest |
| Indicators.BandsBracketMean | app/src/dashboard.py:63-64 | for a non-negative square root, lower band <= MA <= upper band, at equal distances |
| Indicators.VarianceNonNegative | app/src/dashboard.py:63-64 | the sample variance under the bands is never negative |
| Indicators.FlatWindow | app/src/dashboard.py:62-64 | twelve equal prices give that price as MA and variance 0; given sqrt(0) = 0 both bands equal the price and the trend reads Bearish |
| Indicators.NewHighIsBullish | app/src/dashboard.py:134 | a latest price above each of the 11 before it reads Bullish |
| Indicators.NewLowIsBearish | app/src/dashboard.py:134 | a latest price at or below each of the 11 before it reads Bearish |
| Indicators.ChangePctSign | app/src/dashboard.py:61 | for a positive previous price the change exists; it is positive exactly when the price rose, and zero exactly when it stayed |
| Indicators.ChangeVsPrevious | app/src/dashboard.py:58-61 | the metrics' `change_pct` compares the latest row with `df.iloc[-2]`: for a positive previous price it exists, times that price it is 100 times the move, and it is positive exactly when the price rose and zero exactly when it stayed |
| Depth.Bids | app/src/dashboard.py:160 | five bid levels |
| Depth.Asks | app/src/dashboard.py:161 | five ask levels |
| Depth.LadderSizes | app/src/dashboard.py:160-161 | both sides show sizes 900, 800, 700, 600, 500, all positive |
| Depth.BidsDescend | app/src/dashboard.py:160 | for a positive price the bids are positive, below the price and strictly falling |
| Depth.AsksAscend | app/src/dashboard.py:161 | for a positive price the asks are above the price and strictly rising |
| Depth.LadderSymmetric | app/src/dashboard.py:160-161 | each level's bid and ask average to the price; their spread is 0.4 % of the price per level |
| Depth.LadderAtOne | app/src/dashboard.py:160-161 | at price 1.00 the innermost levels are (0.998, 900) and (1.002, 900) |
| Dashboard.Render | app/src/dashboard.py:115-161 | the body of `with placeholder.container()`; no contract of its own. Its properties are in `WarmUpGate` and `LiveViewInvariants` |
| Dashboard.WarmUpGate | app/src/dashboard.py:116-134 | the progress bar shows exactly while fewer than 12 rows are in the window, with progress n/12 in [0, 1); the live view shows the latest price and reads Bullish exactly when it is above the MA |
| Dashboard.LiveViewInvariants | app/src/dashboard.py:122-161 | with 12 rows and a generated price, the live view has bands around the MA, 1 to 60 well-formed candles, and 5 bids falling and 5 asks rising on either side of the price; when the row before the latest has a positive price, the percent change exists and is positive exactly when the price rose |
| Dashboard.BackfillBins | app/src/dashboard.py:44-47 | on a minute-aligned base, the first backfill row opens bin base and the last lies in bin base + 1770 |
| Dashboard.BackfillResampled | app/src/dashboard.py:43-50 | the backfill is already time-ordered and resamples into 60 contiguous bins from base |
| Dashboard.BackfillCandles | app/src/dashboard.py:43-50 | the candles of the backfill are 60 rows from base to base + 1770, none trimmed |
| Dashboard.BackfillChart | app/src/dashboard.py:43-50 | a freshly backfilled table charts exactly 60 candles from base; the x-range ends at base + 1770 |
| Dashboard.ForwardFillKeepsLayout | app/src/dashboard.py:78 | `ffill` keeps 60 contiguous rows' first and last starts |
| Dashboard.LiveRows | app/src/dashboard.py:101-107 | the rows the loop inserts; its own ensures: one row per turn. Its properties are in `LiveRowsAt`, `RunStep` and `Driver.Run` |
| Dashboard.Views | app/src/dashboard.py:115-161 | the views the loop shows; its own ensures: one view per turn. Its properties are in `ViewsAt`, `RunStep` and `Driver.Run` |
| Dashboard.LiveRowsAt | app/src/dashboard.py:102-106 | loop turn i's row carries that turn's clock reading and price |
| Dashboard.ViewsAt | app/src/dashboard.py:115-120 | turn i renders its own window at its own price |
| Dashboard.RunStep | app/src/dashboard.py:101-106 | turn i's price is the step from the previous price; exactly one row and one view are added |
| Dashboard.Driver.constructor | app/src/dashboard.py:96-97 | the loop starts at price 0.08 on the given table |
| Dashboard.Driver.Cycle | app/src/dashboard.py:101-123 | one turn sets the price to the clamped step from the old price, appends exactly one row (now, price) to the table, and renders the queried window at the new price |
| Dashboard.Driver.Run | app/src/dashboard.py:101-173 | n turns make the prices the generator's path from the old price, leave the latest one as the current price, append exactly the n rows (clock reading, price) in order, and render turn i's window at price i |

## Left out

- Rendering is not modelled. This covers the Streamlit page setup, CSS, markdown, progress and info widgets, the Plotly figure, and the number formatting (`.4f`, `+.2f`). The model stops at the values these display.
- sqlite, the SQL text and ISO-8601 strings are not modelled. The table is a sequence of `(timestamp, price)` rows. The constant `symbol` column (`'DOGE-USD'`) is not kept.
- The 30-minute `SELECT … WHERE timestamp >= datetime('now', '-30 minutes', 'utc')` is not modelled. Its result is an input to each turn, because it is a text comparison inside sqlite against sqlite's own clock. The model therefore does not claim the window holds only the last 30 minutes. As written, the comparison selects more than that. Stored stamps look like `2024-05-01T08:12:34Z`, and `datetime(...)` returns `2024-05-01 07:42:34`. Because `'T'` sorts after `' '`, every row dated on the cutoff's UTC day or later passes (lines 47, 103 and 111). The model does not depend on this: `Trailing` takes the last 12 rows of whatever window it is given, and `LastWindow` trims the chart to 30 minutes.
- `np.random.normal`, `np.exp` and `np.sqrt` are foreign numerics.
  - Each generator step takes its growth factor `exp(drift + shock)` as an input, so `mu`, `sigma` and `dt` do not appear.
  - `rolling(12).std()` is the caller-supplied `sqrt` applied to the sample variance. The lemmas that need it state what they assume (`sqrt(x) >= 0`, `sqrt(0) = 0`).
- Floating-point rounding, infinities and NaN are not modelled.
  - `change_pct` is `None` where the division by a zero previous price would give inf or NaN.
  - Prices from the generator are at least 0.01, so the `None` case of `change_pct` never arises there.
- Clock and time: `datetime.utcnow()`, `time.sleep` and the unbounded `while True` are not modelled. The clock reading is an input, and `Driver.Run` models any finite number of turns.
- `@st.cache_resource` (one `init_db` per process) is not modelled. The timing of a warm-up turn is not modelled either: it shows the progress widgets, sleeps 1 second, and its `continue` (line 120) skips the live view and the 5-second sleep at the end of the turn. The model keeps which view is shown, not the sleeps.
- The unused `spread` variable (line 159) is not modelled.
- `app/src/data_gen.py`, `aws/src/cost_checker.py` and `aws/src/strategy.py` are not part of this model.
- No rejection of out-of-order inserts. The code inserts unconditionally, and `Store.Insert` follows the code.
- The main loop does not continue from the backfill. `current_price` starts at 0.08 (line 97), not at the last backfilled price, and `Driver.constructor` models that.
- Indicators.CalculateMetrics is modelled only from 12 rows on, the only case the main loop calls it (the warm-up gate on line 116 comes first). Below 12 rows the model returns `None`. The code does something else there: with 0 or 1 row, `df.iloc[-1]` or `df.iloc[-2]` raises `IndexError` (lines 58 and 61); with 2 to 11 rows it returns the real price and `change_pct`, with a NaN moving average and NaN bands.
- Resampler.SortByTime is an insertion sort that keeps rows with equal timestamps in input order. The default `sort_index` does not promise a stable order, so when several rows share a timestamp, the model's `first`/`last` of a bin is one of the orders pandas may produce.
- Resampler.Candles: `resample('30S')` is modelled with bins aligned to multiples of 30 s since the epoch. This equals pandas' default `origin='start_day'`, because a day is a whole number of 30-second bins.
- Dashboard.Driver.Run does not claim that the view moves from warm-up to live and stays live. Each window is an input, so that would depend on the SQL query, which is left out.
