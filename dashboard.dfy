/** The dashboard's main loop: each cycle advances the price, appends a row to the
    trades table and renders either the warm-up progress or the live view. The clock,
    the random draws and the result of the 30-minute SQL query are inputs. */
module Dashboard {
  import opened Market
  import opened PriceProcess
  import opened TradeStore
  import opened Resampler
  import opened Indicators
  import opened Depth

  /** The price the main loop starts from. */
  const StartPrice: real := 0.08

  /** What one cycle shows: the progress bar while fewer than 12 rows are in the
      window, otherwise the metric boxes, the candlestick chart and the depth ladder. */
  datatype View =
    | WarmingUp(collected: nat, progress: real)
    | Live(metrics: Metrics, trend: Trend, chart: Chart, bids: seq<Level>, asks: seq<Level>)

  /** The body of `with placeholder.container()` for a queried `window`. */
  function Render(window: seq<Tick>, currentPrice: real, sqrt: real -> real): View
  {
    if |window| < MaWindow then WarmingUp(|window|, |window| as real / 12.0)
    else
      CandlestickShape(window);
      var metrics := CalculateMetrics(window, sqrt).value;
      Live(metrics, TrendOf(metrics), CreateCandlestick(window).value, Bids(currentPrice), Asks(currentPrice))
  }

  /** The warm-up gate: the progress bar shows exactly while fewer than 12 rows are in
      the window, with the fraction collected; past it the live view shows the latest
      price and calls the trend bullish exactly when that price is above the average. */
  lemma WarmUpGate(window: seq<Tick>, currentPrice: real, sqrt: real -> real)
    ensures var v := Render(window, currentPrice, sqrt);
      && (v.WarmingUp? <==> |window| < MaWindow)
      && (v.WarmingUp? ==> v.collected == |window| && 0.0 <= v.progress < 1.0)
      && (v.WarmingUp? ==> v.progress * 12.0 == |window| as real)
      && (v.Live? ==> v.metrics.price == window[|window| - 1].price)
      && (v.Live? ==> (v.trend == Bullish <==> v.metrics.price > v.metrics.ma12))
  {
  }

  /** Everything the live view promises at once, for a price the generator can produce
      and a square root that is never negative. */
  lemma LiveViewInvariants(window: seq<Tick>, currentPrice: real, sqrt: real -> real)
    requires |window| >= MaWindow
    requires MinPrice <= currentPrice <= MaxPrice
    requires sqrt(SampleVariance(Trailing(window))) >= 0.0
    ensures var v := Render(window, currentPrice, sqrt);
      && v.Live?
      && v.metrics.lowerBand <= v.metrics.ma12 <= v.metrics.upperBand
      && 1 <= |v.chart.candles| <= MaxCandles
      && (forall k :: 0 <= k < |v.chart.candles| ==>
            v.chart.candles[k].ohlc.Some? && WellFormed(v.chart.candles[k].ohlc.value))
      && |v.bids| == Levels && |v.asks| == Levels
      && (forall i, j :: 0 <= i < j < Levels ==> v.bids[i].price > v.bids[j].price)
      && (forall i, j :: 0 <= i < j < Levels ==> v.asks[i].price < v.asks[j].price)
      && (forall k :: 0 <= k < Levels ==> v.bids[k].price < currentPrice < v.asks[k].price)
      && (window[|window| - 2].price > 0.0 ==>
            v.metrics.changePct.Some? &&
            (v.metrics.changePct.value > 0.0 <==> window[|window| - 1].price > window[|window| - 2].price))
  {
    WarmUpGate(window, currentPrice, sqrt);
    if window[|window| - 2].price > 0.0 {
      ChangeVsPrevious(window, sqrt);
    }
    CandlestickShape(window);
    BandsBracketMean(window, sqrt);
    BidsDescend(currentPrice);
    AsksAscend(currentPrice);
  }

  /** On a minute-aligned base the first backfill row opens bin `base` and the last,
      at `base + 1795`, falls in bin `base + 1770`. */
  lemma BackfillBins(base: int)
    requires base % BinWidth == 0
    ensures BinStart(base) == base
    ensures BinStart(base + 1795) == base + 1770
  {
    var q := base / BinWidth;
    assert base + 1795 == BinWidth * (q + 59) + 25;
  }

  /** The backfill is already in time order and spans the bins `base` to `base + 1770`. */
  lemma BackfillResampled(base: int, growths: seq<real>)
    requires |growths| == BackfillCount && base % BinWidth == 0
    ensures var rows := BackfillRows(base, growths);
      && SortedByTime(rows)
      && SortByTime(rows) == rows
      && |Resample(rows)| == MaxCandles
      && Contiguous(Resample(rows))
      && Resample(rows)[0].start == base
  {
    var rows := BackfillRows(base, growths);
    BackfillSchedule(base, growths);
    SortSortedIdentity(rows);
    ResampleLayout(rows);
    var resampled := Resample(rows);
    BackfillBins(base);
    assert resampled[|resampled| - 1].start == resampled[0].start + BinWidth * (|resampled| - 1);
  }

  /** The 360 backfilled rows resample into exactly 60 candles, the first at `base`,
      the last at `base + 1770` seconds: the 30-minute trim drops none of them. */
  lemma BackfillChart(now: int, growths: seq<real>)
    requires |growths| == BackfillCount
    ensures var base := BackfillBase(now);
      var chart := CreateCandlestick(BackfillRows(base, growths));
      && chart.Some?
      && |chart.value.candles| == MaxCandles
      && chart.value.candles[0].start == base
      && chart.value.rangeEnd == base + 1770
  {
    var base := BackfillBase(now);
    assert base == BinWidth * (2 * (base / 60));
    BackfillCandles(base, growths);
  }

  /** The candles of the backfill are its 60 forward-filled bins, none trimmed. */
  lemma BackfillCandles(base: int, growths: seq<real>)
    requires |growths| == BackfillCount && base % BinWidth == 0
    ensures var c := Candles(BackfillRows(base, growths));
      && |c| == MaxCandles
      && c[0].start == base
      && c[|c| - 1].start == base + 1770
  {
    var rows := BackfillRows(base, growths);
    BackfillResampled(base, growths);
    var resampled := Resample(rows);
    ForwardFillKeepsLayout(resampled);
    var filled := ForwardFill(resampled);
    LastWindowKeepsAll(filled);
    assert Candles(rows) == filled;
  }

  /** Forward filling a contiguous resample of 60 rows keeps its 60 starts. */
  lemma ForwardFillKeepsLayout(resampled: seq<Row>)
    requires |resampled| == MaxCandles && Contiguous(resampled)
    ensures var filled := ForwardFill(resampled);
      && |filled| == MaxCandles
      && filled[0].start == resampled[0].start
      && filled[|filled| - 1].start == resampled[0].start + 1770
  {
    ForwardFillRows(resampled);
  }

  /** The inputs of one turn of `while True`: the clock reading, the growth factor of
      the random step and the rows the window query returned. */
  datatype CycleInput = CycleInput(now: int, growth: real, window: seq<Tick>)

  function Growths(inputs: seq<CycleInput>): (gs: seq<real>)
    ensures |gs| == |inputs|
  {
    seq(|inputs|, i requires 0 <= i < |inputs| => inputs[i].growth)
  }

  /** The rows the loop appends: one per cycle, at that cycle's clock reading and price. */
  function LiveRows(inputs: seq<CycleInput>, path: seq<real>): (rows: seq<Tick>)
    requires |path| == |inputs|
    ensures |rows| == |inputs|
  {
    if inputs == [] then []
    else LiveRows(inputs[..|inputs| - 1], path[..|path| - 1])
         + [Tick(inputs[|inputs| - 1].now, path[|path| - 1])]
  }

  /** Row `i` is stamped with cycle `i`'s clock reading and price. */
  lemma {:induction false} LiveRowsAt(inputs: seq<CycleInput>, path: seq<real>, i: nat)
    requires |path| == |inputs| && i < |inputs|
    ensures |LiveRows(inputs, path)| == |inputs|
    ensures LiveRows(inputs, path)[i] == Tick(inputs[i].now, path[i])
    decreases |inputs|
  {
    if i < |inputs| - 1 {
      LiveRowsAt(inputs[..|inputs| - 1], path[..|path| - 1], i);
    }
  }

  /** The views the loop renders: one per cycle, of that cycle's window at its price. */
  function Views(inputs: seq<CycleInput>, path: seq<real>, sqrt: real -> real): (views: seq<View>)
    requires |path| == |inputs|
    ensures |views| == |inputs|
  {
    if inputs == [] then []
    else Views(inputs[..|inputs| - 1], path[..|path| - 1], sqrt)
         + [Render(inputs[|inputs| - 1].window, path[|path| - 1], sqrt)]
  }

  /** View `i` renders window `i` at price `i`. */
  lemma {:induction false} ViewsAt(inputs: seq<CycleInput>, path: seq<real>, sqrt: real -> real, i: nat)
    requires |path| == |inputs| && i < |inputs|
    ensures Views(inputs, path, sqrt)[i] == Render(inputs[i].window, path[i], sqrt)
    decreases |inputs|
  {
    if i < |inputs| - 1 {
      ViewsAt(inputs[..|inputs| - 1], path[..|path| - 1], sqrt, i);
    }
  }

  /** Turn `i` of the loop, stated on prefixes: the price is the generator's step from
      the previous one, and one more row is appended. */
  lemma RunStep(start: real, inputs: seq<CycleInput>, sqrt: real -> real, i: nat)
    requires i < |inputs|
    ensures var path := PricePath(start, Growths(inputs));
      && path[i] == GbmPrice(LastOr(start, path[..i]), inputs[i].growth)
      && LastOr(start, path[..i + 1]) == path[i]
      && LiveRows(inputs[..i + 1], path[..i + 1])
         == LiveRows(inputs[..i], path[..i]) + [Tick(inputs[i].now, path[i])]
      && Views(inputs[..i + 1], path[..i + 1], sqrt)
         == Views(inputs[..i], path[..i], sqrt) + [Render(inputs[i].window, path[i], sqrt)]
  {
    var path := PricePath(start, Growths(inputs));
    PricePathStep(start, Growths(inputs), i);
    assert path[..i + 1][..i] == path[..i];
    assert inputs[..i + 1][..i] == inputs[..i];
  }

  /** The module-level state of the script: the current price and the connection. */
  class Driver {
    var currentPrice: real
    const store: Store

    constructor (store: Store)
      ensures this.store == store && currentPrice == StartPrice
    {
      this.store := store;
      currentPrice := StartPrice;
    }

    /** One turn of the loop: step the price, insert it at the clock reading, render. */
    method Cycle(now: int, growth: real, window: seq<Tick>, sqrt: real -> real) returns (view: View)
      modifies this, store
      ensures currentPrice == GbmPrice(old(currentPrice), growth)
      ensures store.rows == old(store.rows) + [Tick(now, currentPrice)]
      ensures view == Render(window, currentPrice, sqrt)
    {
      currentPrice := GbmPrice(currentPrice, growth);
      store.Insert(Tick(now, currentPrice));
      view := Render(window, currentPrice, sqrt);
    }

    /** The first `|inputs|` turns of the loop: the prices follow the generator's path
        from the current price, every turn appends exactly one row, and each turn renders
        its own window at its own price. */
    method Run(inputs: seq<CycleInput>, sqrt: real -> real) returns (views: seq<View>)
      modifies this, store
      ensures var path := PricePath(old(currentPrice), Growths(inputs));
        && |views| == |inputs|
        && currentPrice == LastOr(old(currentPrice), path)
        && store.rows == old(store.rows) + LiveRows(inputs, path)
        && forall i :: 0 <= i < |inputs| ==> views[i] == Render(inputs[i].window, path[i], sqrt)
    {
      ghost var start := currentPrice;
      ghost var path := PricePath(start, Growths(inputs));
      views := [];
      for i := 0 to |inputs|
        invariant currentPrice == LastOr(start, path[..i])
        invariant store.rows == old(store.rows) + LiveRows(inputs[..i], path[..i])
        invariant views == Views(inputs[..i], path[..i], sqrt)
      {
        RunStep(start, inputs, sqrt, i);
        ghost var before := store.rows;
        var view := Cycle(inputs[i].now, inputs[i].growth, inputs[i].window, sqrt);
        assert store.rows == before + [Tick(inputs[i].now, path[i])];
        views := views + [view];
      }
      assert path[..|inputs|] == path;
      assert inputs[..|inputs|] == inputs;
      forall i | 0 <= i < |inputs|
        ensures views[i] == Render(inputs[i].window, path[i], sqrt)
      {
        ViewsAt(inputs, path, sqrt, i);
      }
    }
  }
}
