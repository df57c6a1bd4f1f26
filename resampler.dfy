/** The 30-second candle builder (`create_candlestick`), with each step that the
    dataframe library performs implicitly written out: sort by time, cut into
    30-second bins aligned to multiples of 30 s, reduce each bin to
    first/max/min/last, forward-fill empty bins, keep the last 30 minutes. */
module Resampler {
  import opened Market

  /** Width of a candle, in seconds. */
  const BinWidth: int := 30
  /** The span `last('30T')` keeps, in seconds. */
  const WindowSpan: int := 1800
  /** WindowSpan / BinWidth. */
  const MaxCandles: nat := 60

  datatype Ohlc = Ohlc(open: real, high: real, low: real, close: real)

  /** The candle invariant: low <= open, close <= high. */
  predicate WellFormed(c: Ohlc)
  {
    c.low <= c.open <= c.high && c.low <= c.close <= c.high
  }

  /** A row of the resampled frame: the bin's start and its four columns,
      `None` where an empty bin holds NaN in all four. */
  datatype Row = Row(start: int, ohlc: Option<Ohlc>)

  // ---------------------------------------------------------------- sorting

  /** Puts `t` in front of the first tick that is not earlier than it. */
  function InsertByTime(t: Tick, s: seq<Tick>): (r: seq<Tick>)
    ensures |r| == |s| + 1
  {
    if s == [] || t.timestamp <= s[0].timestamp then [t] + s
    else [s[0]] + InsertByTime(t, s[1..])
  }

  /** Insertion adds `t` and keeps every other tick. */
  lemma {:induction false} InsertPermutes(t: Tick, s: seq<Tick>)
    ensures multiset(InsertByTime(t, s)) == multiset(s) + multiset{t}
  {
    if s != [] && t.timestamp > s[0].timestamp {
      InsertPermutes(t, s[1..]);
      assert s == [s[0]] + s[1..];
    }
  }

  /** Insertion into a time-ordered run keeps it in time order. */
  lemma {:induction false} InsertSorted(t: Tick, s: seq<Tick>)
    requires SortedByTime(s)
    ensures SortedByTime(InsertByTime(t, s))
  {
    if s != [] && t.timestamp > s[0].timestamp {
      var rest := InsertByTime(t, s[1..]);
      InsertSorted(t, s[1..]);
      InsertPermutes(t, s[1..]);
      forall i | 0 <= i < |rest|
        ensures s[0].timestamp <= rest[i].timestamp
      {
        var x := rest[i];
        assert x in multiset(rest);
        if x != t {
          assert x in multiset(s[1..]);
          var j :| 0 <= j < |s[1..]| && s[1..][j] == x;
          assert s[j + 1] == x;
        }
      }
    }
  }

  /** `sort_index()`: an insertion sort by timestamp. */
  function SortByTime(s: seq<Tick>): (r: seq<Tick>)
    ensures SortedByTime(r)
    ensures |r| == |s|
  {
    if s == [] then []
    else
      var rest := SortByTime(s[1..]);
      InsertSorted(s[0], rest);
      InsertByTime(s[0], rest)
  }

  /** Sorting reorders the ticks and neither drops nor duplicates any. */
  lemma {:induction false} SortPermutes(s: seq<Tick>)
    ensures multiset(SortByTime(s)) == multiset(s)
  {
    if s != [] {
      SortPermutes(s[1..]);
      InsertPermutes(s[0], SortByTime(s[1..]));
      assert s == [s[0]] + s[1..];
    }
  }
  /** Sorting rows that are already in time order leaves them as they are. */
  lemma {:induction false} SortSortedIdentity(s: seq<Tick>)
    requires SortedByTime(s)
    ensures SortByTime(s) == s
  {
    if s != [] {
      SortSortedIdentity(s[1..]);
      assert [s[0]] + s[1..] == s;
    }
  }

  // ---------------------------------------------------------------- bins

  /** The start of the 30-second bin holding `ts`: the largest multiple of 30 not after it. */
  function BinStart(ts: int): (b: int)
    ensures b % BinWidth == 0
    ensures b <= ts < b + BinWidth
  {
    ts - ts % BinWidth
  }

  /** A later time never falls in an earlier bin. */
  lemma BinStartMonotone(a: int, b: int)
    requires a <= b
    ensures BinStart(a) <= BinStart(b)
  {
    var x, y := BinStart(a), BinStart(b);
    assert x == BinWidth * (x / BinWidth) && y == BinWidth * (y / BinWidth);
  }

  /** Two bins are a whole number of bin widths apart. */
  lemma BinsApart(a: int, b: int)
    ensures BinStart(b) - BinStart(a) == BinWidth * ((BinStart(b) - BinStart(a)) / BinWidth)
  {
    var x, y := BinStart(a), BinStart(b);
    assert x == BinWidth * (x / BinWidth) && y == BinWidth * (y / BinWidth);
    assert y - x == BinWidth * (y / BinWidth - x / BinWidth);
  }

  /** `t` falls in the bin that starts at `start`. */
  predicate InBin(t: Tick, start: int)
  {
    start <= t.timestamp < start + BinWidth
  }

  /** The ticks of `s` that fall in the bin starting at `start`, in their order in `s`. */
  function Bucket(s: seq<Tick>, start: int): seq<Tick>
  {
    if s == [] then []
    else (if InBin(s[0], start) then [s[0]] else []) + Bucket(s[1..], start)
  }

  /** The bucket holds exactly the ticks of `s` that fall in the bin. */
  lemma {:induction false} BucketMembers(s: seq<Tick>, start: int)
    ensures forall t :: t in Bucket(s, start) <==> t in s && InBin(t, start)
  {
    if s != [] {
      BucketMembers(s[1..], start);
      assert s == [s[0]] + s[1..];
    }
  }

  /** The bucket of a time-ordered run is itself in time order. */
  lemma {:induction false} BucketSorted(s: seq<Tick>, start: int)
    requires SortedByTime(s)
    ensures SortedByTime(Bucket(s, start))
  {
    if s != [] {
      BucketSorted(s[1..], start);
      BucketMembers(s[1..], start);
      var rest := Bucket(s[1..], start);
      forall x | x in rest
        ensures s[0].timestamp <= x.timestamp
      {
        var j :| 0 <= j < |s[1..]| && s[1..][j] == x;
        assert s[j + 1] == x;
      }
    }
  }

  // ---------------------------------------------------------------- reducing a bin

  /** The highest price of a non-empty bucket. */
  function High(b: seq<Tick>): real
    requires b != []
  {
    if |b| == 1 then b[0].price
    else
      var rest := High(b[1..]);
      if b[0].price >= rest then b[0].price else rest
  }

  /** The lowest price of a non-empty bucket. */
  function Low(b: seq<Tick>): real
    requires b != []
  {
    if |b| == 1 then b[0].price
    else
      var rest := Low(b[1..]);
      if b[0].price <= rest then b[0].price else rest
  }

  /** `High` is the maximum: no price of the bucket exceeds it and some price equals it. */
  lemma {:induction false} HighIsMax(b: seq<Tick>)
    requires b != []
    ensures forall i :: 0 <= i < |b| ==> b[i].price <= High(b)
    ensures exists i :: 0 <= i < |b| && b[i].price == High(b)
  {
    if |b| > 1 {
      HighIsMax(b[1..]);
      var j :| 0 <= j < |b[1..]| && b[1..][j].price == High(b[1..]);
      if b[0].price >= High(b[1..]) {
        assert b[0].price == High(b);
      } else {
        assert b[j + 1].price == High(b);
      }
      forall i | 1 <= i < |b|
        ensures b[i].price <= High(b)
      {
        assert b[i] == b[1..][i - 1];
      }
    } else {
      assert b[0].price == High(b);
    }
  }

  /** `Low` is the minimum: no price of the bucket is below it and some price equals it. */
  lemma {:induction false} LowIsMin(b: seq<Tick>)
    requires b != []
    ensures forall i :: 0 <= i < |b| ==> Low(b) <= b[i].price
    ensures exists i :: 0 <= i < |b| && b[i].price == Low(b)
  {
    if |b| > 1 {
      LowIsMin(b[1..]);
      var j :| 0 <= j < |b[1..]| && b[1..][j].price == Low(b[1..]);
      if b[0].price <= Low(b[1..]) {
        assert b[0].price == Low(b);
      } else {
        assert b[j + 1].price == Low(b);
      }
      forall i | 1 <= i < |b|
        ensures Low(b) <= b[i].price
      {
        assert b[i] == b[1..][i - 1];
      }
    } else {
      assert b[0].price == Low(b);
    }
  }

  /** The `first`/`max`/`min`/`last` aggregation of one bucket; NaN (`None`) when empty. */
  function Aggregate(b: seq<Tick>): (c: Option<Ohlc>)
    ensures c.None? <==> b == []
  {
    if b == [] then None
    else Some(Ohlc(b[0].price, High(b), Low(b), b[|b| - 1].price))
  }

  /** A candle built from ticks keeps low <= open, close <= high, and its high and low
      are prices that occur in the bucket. */
  lemma AggregateWellFormed(b: seq<Tick>)
    requires b != []
    ensures WellFormed(Aggregate(b).value)
    ensures exists i :: 0 <= i < |b| && b[i].price == Aggregate(b).value.high
    ensures exists i :: 0 <= i < |b| && b[i].price == Aggregate(b).value.low
  {
    HighIsMax(b);
    LowIsMin(b);
  }

  // ---------------------------------------------------------------- resample

  /** Consecutive rows are one bin apart. */
  predicate Contiguous(rows: seq<Row>)
  {
    forall k :: 0 <= k < |rows| ==> rows[k].start == rows[0].start + BinWidth * k
  }

  /** `resample('30S').agg(...)` on time-ordered ticks: one row per bin, from the
      first tick's bin to the last tick's bin, empty bins included. */
  function Resample(s: seq<Tick>): (rows: seq<Row>)
    requires SortedByTime(s)
  {
    if s == [] then []
    else
      var origin := BinStart(s[0].timestamp);
      BinStartMonotone(s[0].timestamp, s[|s| - 1].timestamp);
      var count := (BinStart(s[|s| - 1].timestamp) - origin) / BinWidth + 1;
      Bins(s, origin, count)
  }

  /** The rows of `count` consecutive bins from `start`. */
  function Bins(s: seq<Tick>, start: int, count: nat): (rows: seq<Row>)
    ensures |rows| == count
    decreases count
  {
    if count == 0 then [] else [BinRow(s, start)] + Bins(s, start + BinWidth, count - 1)
  }

  /** The `k-1`-th bin after the next one is the `k`-th bin after `start`. */
  lemma BinStep(start: int, k: int)
    ensures start + BinWidth + BinWidth * (k - 1) == start + BinWidth * k
  {
  }

  /** Row `k` of the bins is the row of the `k`-th bin after `start`. */
  lemma {:induction false} BinsAt(s: seq<Tick>, start: int, count: nat, k: nat)
    requires k < count
    ensures Bins(s, start, count)[k] == BinRow(s, start + BinWidth * k)
    decreases count
  {
    var rest := Bins(s, start + BinWidth, count - 1);
    assert Bins(s, start, count) == [BinRow(s, start)] + rest;
    if k > 0 {
      BinStep(start, k);
      BinsAt(s, start + BinWidth, count - 1, k - 1);
    }
  }

  /** Every row of the bins is the row of its own bin. */
  lemma BinsRows(s: seq<Tick>, start: int, count: nat)
    ensures var rows := Bins(s, start, count);
      forall k :: 0 <= k < count ==> rows[k].ohlc == Aggregate(Bucket(s, rows[k].start))
  {
    var rows := Bins(s, start, count);
    forall k | 0 <= k < count
      ensures rows[k].ohlc == Aggregate(Bucket(s, rows[k].start))
    {
      BinsAt(s, start, count, k);
    }
  }

  /** The row of the bin starting at `start`. */
  function BinRow(s: seq<Tick>, start: int): Row
  {
    Row(start, Aggregate(Bucket(s, start)))
  }

  /** The bins of resampling: contiguous, from the first tick's bin to the last tick's bin. */
  lemma ResampleLayout(s: seq<Tick>)
    requires SortedByTime(s) && s != []
    ensures var rows := Resample(s);
      && rows != []
      && Contiguous(rows)
      && rows[0].start == BinStart(s[0].timestamp)
      && rows[|rows| - 1].start == BinStart(s[|s| - 1].timestamp)
  {
    var origin := BinStart(s[0].timestamp);
    BinStartMonotone(s[0].timestamp, s[|s| - 1].timestamp);
    BinsApart(s[0].timestamp, s[|s| - 1].timestamp);
    var rows := Resample(s);
    forall k | 0 <= k < |rows|
      ensures rows[k].start == origin + BinWidth * k
    {
      BinsAt(s, origin, |rows|, k);
    }
  }

  /** Each row is the aggregate of exactly the ticks in its bin. */
  lemma ResampleRows(s: seq<Tick>)
    requires SortedByTime(s)
    ensures var rows := Resample(s);
      forall k :: 0 <= k < |rows| ==> rows[k].ohlc == Aggregate(Bucket(s, rows[k].start))
  {
    if s != [] {
      var origin := BinStart(s[0].timestamp);
      BinStartMonotone(s[0].timestamp, s[|s| - 1].timestamp);
      var count := (BinStart(s[|s| - 1].timestamp) - origin) / BinWidth + 1;
      assert Resample(s) == Bins(s, origin, count);
      BinsRows(s, origin, count);
    }
  }

  /** Every tick lies in the bin of some row. */
  lemma ResampleCovers(s: seq<Tick>)
    requires SortedByTime(s) && s != []
    ensures var rows := Resample(s);
      forall i :: 0 <= i < |s| ==> exists k :: 0 <= k < |rows| && InBin(s[i], rows[k].start)
  {
    var rows := Resample(s);
    ResampleLayout(s);
    forall i | 0 <= i < |s|
      ensures exists k :: 0 <= k < |rows| && InBin(s[i], rows[k].start)
    {
      BinStartMonotone(s[0].timestamp, s[i].timestamp);
      BinStartMonotone(s[i].timestamp, s[|s| - 1].timestamp);
      BinsApart(s[0].timestamp, s[i].timestamp);
      var k := (BinStart(s[i].timestamp) - rows[0].start) / BinWidth;
      assert rows[k].start == BinStart(s[i].timestamp);
      assert InBin(s[i], rows[k].start);
    }
  }

  /** The first and the last bin each hold a tick, so neither of them is empty. */
  lemma ResampleEndsFilled(s: seq<Tick>)
    requires SortedByTime(s) && s != []
    ensures var rows := Resample(s);
      rows != [] && rows[0].ohlc.Some? && rows[|rows| - 1].ohlc.Some?
  {
    var rows := Resample(s);
    assert rows != [] && rows[0].start == BinStart(s[0].timestamp)
      && rows[|rows| - 1].start == BinStart(s[|s| - 1].timestamp) by {
      ResampleLayout(s);
    }
    assert s[0] in Bucket(s, rows[0].start) by {
      BucketMembers(s, rows[0].start);
    }
    assert s[|s| - 1] in Bucket(s, rows[|rows| - 1].start) by {
      BucketMembers(s, rows[|rows| - 1].start);
    }
    assert rows[0].ohlc == Aggregate(Bucket(s, rows[0].start))
      && rows[|rows| - 1].ohlc == Aggregate(Bucket(s, rows[|rows| - 1].start)) by {
      ResampleRows(s);
    }
  }

  // ---------------------------------------------------------------- forward fill

  /** `ffill()`: an empty row takes the previous row's values; a leading empty row stays empty. */
  function ForwardFill(rows: seq<Row>): (filled: seq<Row>)
    ensures |filled| == |rows|
  {
    if rows == [] then []
    else
      var prior := ForwardFill(rows[..|rows| - 1]);
      var last := rows[|rows| - 1];
      prior + [if last.ohlc.Some? || prior == [] then last else Row(last.start, prior[|prior| - 1].ohlc)]
  }

  /** Forward filling keeps every bin start and every non-empty row, copies the previous
      filled row's values into an empty row, and leaves a leading empty row empty. */
  lemma {:induction false} ForwardFillRows(rows: seq<Row>)
    ensures var filled := ForwardFill(rows);
      && (forall k :: 0 <= k < |rows| ==> filled[k].start == rows[k].start)
      && (forall k :: 0 <= k < |rows| && rows[k].ohlc.Some? ==> filled[k] == rows[k])
      && (forall k :: 0 < k < |rows| && rows[k].ohlc.None? ==> filled[k].ohlc == filled[k - 1].ohlc)
      && (|rows| > 0 && rows[0].ohlc.None? ==> filled[0] == rows[0])
  {
    if rows != [] {
      var init := rows[..|rows| - 1];
      ForwardFillRows(init);
      var filled := ForwardFill(rows);
      var prior := ForwardFill(init);
      forall k | 0 <= k < |init|
        ensures filled[k] == prior[k] && rows[k] == init[k]
      {
      }
    }
  }

  /** Once the first row holds values, forward filling leaves no empty row, and each
      filled value is the value of the nearest non-empty row at or before it. */
  lemma {:induction false} ForwardFillNoGaps(rows: seq<Row>, k: nat)
    requires k < |rows| && rows[0].ohlc.Some?
    ensures ForwardFill(rows)[k].ohlc.Some?
    ensures exists j :: (0 <= j <= k && rows[j].ohlc.Some?
      && (forall i :: j < i <= k ==> rows[i].ohlc.None?)
      && ForwardFill(rows)[k].ohlc == rows[j].ohlc)
  {
    var filled := ForwardFill(rows);
    ForwardFillRows(rows);
    if rows[k].ohlc.Some? {
      assert filled[k].ohlc == rows[k].ohlc;
    } else {
      ForwardFillNoGaps(rows, k - 1);
      var j :| 0 <= j <= k - 1 && rows[j].ohlc.Some?
        && (forall i :: j < i <= k - 1 ==> rows[i].ohlc.None?)
        && filled[k - 1].ohlc == rows[j].ohlc;
      assert filled[k].ohlc == rows[j].ohlc;
      assert forall i :: j < i <= k ==> rows[i].ohlc.None?;
    }
  }

  /** On a contiguous run of bins that covers the ticks and holds the candle of each bin,
      forward-filled row `i` is the candle of the latest non-empty bin `j` at or before it:
      no tick lies after bin `j` and before the end of bin `i`. */
  lemma FilledFromLatestRow(s: seq<Tick>, rows: seq<Row>, i: nat) returns (j: nat)
    requires rows != [] && Contiguous(rows) && rows[0].ohlc.Some? && i < |rows|
    requires forall k :: 0 <= k < |rows| ==> rows[k].ohlc == Aggregate(Bucket(s, rows[k].start))
    requires forall t :: t in s ==> exists k :: 0 <= k < |rows| && InBin(t, rows[k].start)
    ensures j <= i && Bucket(s, rows[j].start) != []
    ensures forall t :: t in s && t.timestamp < rows[i].start + BinWidth ==> t.timestamp < rows[j].start + BinWidth
    ensures ForwardFill(rows)[i].ohlc == Aggregate(Bucket(s, rows[j].start))
  {
    ForwardFillNoGaps(rows, i);
    j :| 0 <= j <= i && rows[j].ohlc.Some?
      && (forall i' :: j < i' <= i ==> rows[i'].ohlc.None?)
      && ForwardFill(rows)[i].ohlc == rows[j].ohlc;
    assert rows[j].start == rows[0].start + BinWidth * j;
    assert rows[i].start == rows[0].start + BinWidth * i;
    forall t | t in s && t.timestamp < rows[i].start + BinWidth
      ensures t.timestamp < rows[j].start + BinWidth
    {
      var r :| 0 <= r < |rows| && InBin(t, rows[r].start);
      assert rows[r].start == rows[0].start + BinWidth * r;
      BucketMembers(s, rows[r].start);
      assert t in Bucket(s, rows[r].start);
    }
  }

  /** Forward filling keeps the candle invariant and the bin layout. */
  lemma ForwardFillWellFormed(rows: seq<Row>)
    requires rows != [] && rows[0].ohlc.Some?
    requires forall k :: 0 <= k < |rows| && rows[k].ohlc.Some? ==> WellFormed(rows[k].ohlc.value)
    ensures var filled := ForwardFill(rows);
      forall k :: 0 <= k < |filled| ==> filled[k].ohlc.Some? && WellFormed(filled[k].ohlc.value)
  {
    var filled := ForwardFill(rows);
    forall k | 0 <= k < |filled|
      ensures filled[k].ohlc.Some? && WellFormed(filled[k].ohlc.value)
    {
      ForwardFillNoGaps(rows, k);
    }
  }

  // ---------------------------------------------------------------- last 30 minutes

  /** `index.searchsorted(cutoff, side='right')` and the slice after it: drops the
      leading rows whose start is at or before `cutoff`. */
  function DropThrough(rows: seq<Row>, cutoff: int): (kept: seq<Row>)
    ensures |kept| <= |rows|
  {
    if rows == [] || rows[0].start > cutoff then rows
    else DropThrough(rows[1..], cutoff)
  }

  /** What `DropThrough` keeps is a suffix whose first row starts after the cutoff, and
      every row it drops starts at or before the cutoff. */
  lemma {:induction false} DropThroughRows(rows: seq<Row>, cutoff: int)
    ensures var kept := DropThrough(rows, cutoff);
      && kept == rows[|rows| - |kept|..]
      && (forall k :: 0 <= k < |rows| - |kept| ==> rows[k].start <= cutoff)
      && (kept != [] ==> kept[0].start > cutoff)
  {
    if rows != [] && rows[0].start <= cutoff {
      DropThroughRows(rows[1..], cutoff);
      var kept := DropThrough(rows, cutoff);
      forall k | 1 <= k < |rows| - |kept|
        ensures rows[k].start <= cutoff
      {
        assert rows[k] == rows[1..][k - 1];
      }
    }
  }

  /** `last('30T')`: the rows whose start is strictly after the last start minus 30 minutes. */
  function LastWindow(rows: seq<Row>): (kept: seq<Row>)
  {
    if rows == [] then [] else DropThrough(rows, rows[|rows| - 1].start - WindowSpan)
  }

  /** When even the first row starts after the cutoff, the trim keeps every row. */
  lemma LastWindowKeepsAll(rows: seq<Row>)
    requires rows != [] && rows[0].start > rows[|rows| - 1].start - WindowSpan
    ensures LastWindow(rows) == rows
  {
  }

  /** On contiguous rows the trim keeps a non-empty contiguous suffix, ending with the last
      row, of at most 60 rows, all starting strictly after the last start minus 30 minutes,
      and drops only rows starting at or before that cutoff. */
  lemma LastWindowShape(rows: seq<Row>)
    requires rows != [] && Contiguous(rows)
    ensures var kept := LastWindow(rows);
      var cutoff := rows[|rows| - 1].start - WindowSpan;
      && kept != []
      && |kept| <= MaxCandles
      && kept == rows[|rows| - |kept|..]
      && kept[|kept| - 1] == rows[|rows| - 1]
      && Contiguous(kept)
      && (forall k :: 0 <= k < |kept| ==> cutoff < kept[k].start)
      && (forall k :: 0 <= k < |rows| - |kept| ==> rows[k].start <= cutoff)
  {
    var kept := LastWindow(rows);
    DropThroughRows(rows, rows[|rows| - 1].start - WindowSpan);
    var n, m := |rows|, |rows| - |kept|;
    assert kept != [];
    assert kept[0] == rows[m];
    assert rows[n - 1].start - rows[m].start == BinWidth * (n - 1 - m);
    forall k | 0 <= k < |kept|
      ensures kept[k].start == kept[0].start + BinWidth * k
    {
      assert kept[k] == rows[m + k];
    }
  }

  // ---------------------------------------------------------------- the chart

  /** The candles and the x-axis range `[last start - 30 min, last start]` of the figure. */
  datatype Chart = Chart(candles: seq<Row>, rangeStart: int, rangeEnd: int)

  /** The candle rows `create_candlestick` plots. */
  function Candles(ticks: seq<Tick>): seq<Row>
  {
    LastWindow(ForwardFill(Resample(SortByTime(ticks))))
  }

  /** `create_candlestick`: `None` where reading the last candle's start raises
      (no candles at all). */
  function CreateCandlestick(ticks: seq<Tick>): (chart: Option<Chart>)
  {
    var candles := Candles(ticks);
    if candles == [] then None
    else
      var end := candles[|candles| - 1].start;
      Some(Chart(candles, end - WindowSpan, end))
  }

  /** A tick belongs to the sorted frame exactly when it belongs to the input. */
  lemma SortedMembers(ticks: seq<Tick>)
    ensures forall t :: t in SortByTime(ticks) <==> t in ticks
  {
    var sorted := SortByTime(ticks);
    SortPermutes(ticks);
    forall t
      ensures t in sorted <==> t in ticks
    {
      assert t in sorted <==> t in multiset(sorted);
      assert t in ticks <==> t in multiset(ticks);
    }
  }

  /** The forward-filled frame before trimming: contiguous, no empty row, every candle
      well formed, its last row the bin of the latest tick. */
  lemma FilledShape(ticks: seq<Tick>)
    requires ticks != []
    ensures var sorted := SortByTime(ticks);
      var filled := ForwardFill(Resample(sorted));
      && filled != []
      && Contiguous(filled)
      && filled[|filled| - 1].start == BinStart(sorted[|sorted| - 1].timestamp)
      && (forall k :: 0 <= k < |filled| ==> filled[k].ohlc.Some? && WellFormed(filled[k].ohlc.value))
  {
    var sorted := SortByTime(ticks);
    var rows := Resample(sorted);
    ResampleLayout(sorted);
    ResampleRows(sorted);
    ResampleEndsFilled(sorted);
    ForwardFillRows(rows);
    forall k | 0 <= k < |rows| && rows[k].ohlc.Some?
      ensures WellFormed(rows[k].ohlc.value)
    {
      AggregateWellFormed(Bucket(sorted, rows[k].start));
    }
    ForwardFillWellFormed(rows);
  }

  /** Trimming keeps every candle non-empty and well formed. */
  lemma TrimmedWellFormed(filled: seq<Row>)
    requires filled != [] && Contiguous(filled)
    requires forall k :: 0 <= k < |filled| ==> filled[k].ohlc.Some? && WellFormed(filled[k].ohlc.value)
    ensures var c := LastWindow(filled);
      forall k :: 0 <= k < |c| ==> c[k].ohlc.Some? && WellFormed(c[k].ohlc.value)
  {
    var c := LastWindow(filled);
    LastWindowShape(filled);
    var m := |filled| - |c|;
    forall k | 0 <= k < |c|
      ensures c[k].ohlc.Some? && WellFormed(c[k].ohlc.value)
    {
      assert c[k] == filled[m + k];
    }
  }

  /** No tick of a time-ordered run is later than its last one. */
  lemma SortedLast(s: seq<Tick>, t: Tick)
    requires SortedByTime(s) && t in s
    ensures t.timestamp <= s[|s| - 1].timestamp
  {
    var i :| 0 <= i < |s| && s[i] == t;
  }

  /** The latest tick after sorting is one of the input ticks, and no tick falls in a
      later bin than it. */
  lemma LatestTick(ticks: seq<Tick>)
    requires ticks != []
    ensures var sorted := SortByTime(ticks);
      var latest := sorted[|sorted| - 1];
      && latest in ticks
      && forall t :: t in ticks ==> BinStart(t.timestamp) <= BinStart(latest.timestamp)
  {
    var sorted := SortByTime(ticks);
    var latest := sorted[|sorted| - 1];
    SortedMembers(ticks);
    forall t | t in ticks
      ensures BinStart(t.timestamp) <= BinStart(latest.timestamp)
    {
      SortedLast(sorted, t);
      BinStartMonotone(t.timestamp, latest.timestamp);
    }
  }

  /** What `create_candlestick` plots: a chart exactly when there is at least one tick;
      then between 1 and 60 contiguous candles, none empty, each with
      low <= open, close <= high, all starting inside the 30-minute x-range that ends at
      the bin of the latest tick. */
  lemma CandlestickShape(ticks: seq<Tick>)
    ensures CreateCandlestick(ticks).Some? <==> ticks != []
    ensures ticks != [] ==>
      var chart := CreateCandlestick(ticks).value;
      var c := chart.candles;
      && 1 <= |c| <= MaxCandles
      && Contiguous(c)
      && chart.rangeEnd - chart.rangeStart == WindowSpan
      && (forall k :: 0 <= k < |c| ==> c[k].ohlc.Some? && WellFormed(c[k].ohlc.value))
      && (forall k :: 0 <= k < |c| ==> chart.rangeStart < c[k].start <= chart.rangeEnd)
      && (forall t :: t in ticks ==> BinStart(t.timestamp) <= chart.rangeEnd)
      && (exists t :: t in ticks && InBin(t, chart.rangeEnd))
  {
    if ticks == [] {
      assert Candles(ticks) == [];
    } else {
      CandlesShape(ticks);
      LatestTick(ticks);
    }
  }

  /** The candle rows of a non-empty frame: 1 to 60 contiguous, well-formed candles
      ending at the bin of the latest tick, all after that bin's start minus 30 minutes. */
  lemma CandlesShape(ticks: seq<Tick>)
    requires ticks != []
    ensures var sorted := SortByTime(ticks);
      var end := BinStart(sorted[|sorted| - 1].timestamp);
      var c := Candles(ticks);
      && 1 <= |c| <= MaxCandles
      && Contiguous(c)
      && c[|c| - 1].start == end
      && (forall k :: 0 <= k < |c| ==> c[k].ohlc.Some? && WellFormed(c[k].ohlc.value))
      && (forall k :: 0 <= k < |c| ==> end - WindowSpan < c[k].start <= end)
  {
    var filled := ForwardFill(Resample(SortByTime(ticks)));
    FilledShape(ticks);
    TrimmedCandles(filled);
    assert Candles(ticks) == LastWindow(filled);
  }

  /** The trim of a contiguous, gap-free, well-formed frame: 1 to 60 contiguous,
      well-formed candles ending at the frame's last row, all after its start minus
      30 minutes. */
  lemma TrimmedCandles(filled: seq<Row>)
    requires filled != [] && Contiguous(filled)
    requires forall k :: 0 <= k < |filled| ==> filled[k].ohlc.Some? && WellFormed(filled[k].ohlc.value)
    ensures var end := filled[|filled| - 1].start;
      var c := LastWindow(filled);
      && 1 <= |c| <= MaxCandles
      && Contiguous(c)
      && c[|c| - 1].start == end
      && (forall k :: 0 <= k < |c| ==> c[k].ohlc.Some? && WellFormed(c[k].ohlc.value))
      && (forall k :: 0 <= k < |c| ==> end - WindowSpan < c[k].start <= end)
  {
    LastWindowShape(filled);
    TrimmedWellFormed(filled);
    var c := LastWindow(filled);
    forall k | 0 <= k < |c|
      ensures c[k].start <= c[|c| - 1].start
    {
    }
  }

  /** A candle whose bin holds ticks is the `first`/`max`/`min`/`last` of exactly those
      ticks taken in time order; a candle whose bin is empty repeats the candle before it. */
  lemma CandleFromBucket(ticks: seq<Tick>, k: nat)
    requires k < |Candles(ticks)|
    ensures var c := Candles(ticks);
      var b := Bucket(SortByTime(ticks), c[k].start);
      && SortedByTime(b)
      && (forall t :: t in b <==> t in ticks && InBin(t, c[k].start))
      && (b != [] ==> c[k].ohlc == Some(Ohlc(b[0].price, High(b), Low(b), b[|b| - 1].price)))
      && (b == [] && k > 0 ==> c[k].ohlc == c[k - 1].ohlc)
  {
    var sorted := SortByTime(ticks);
    var rows := Resample(sorted);
    var filled := ForwardFill(rows);
    var c := Candles(ticks);
    assert ticks != [];
    FilledShape(ticks);
    ForwardFillRows(rows);
    LastWindowShape(filled);
    ResampleRows(sorted);
    SortedMembers(ticks);
    BucketMembers(sorted, c[k].start);
    BucketSorted(sorted, c[k].start);
    var m := |filled| - |c|;
    assert c[k] == filled[m + k];
    assert k > 0 ==> c[k - 1] == filled[m + k - 1];
  }

  /** A candle whose bin is empty is the candle of the latest non-empty bin of the
      resample before its own: no tick lies after that bin and before the end of the
      candle's bin. For the first plotted candle that bin is one the trim has dropped. */
  lemma EmptyBinCandle(ticks: seq<Tick>, k: nat)
    requires k < |Candles(ticks)| && Bucket(SortByTime(ticks), Candles(ticks)[k].start) == []
    ensures var c := Candles(ticks);
      var sorted := SortByTime(ticks);
      exists r :: (r in Resample(sorted) && r.start < c[k].start && Bucket(sorted, r.start) != []
        && (forall t :: t in ticks && t.timestamp < c[k].start + BinWidth ==> t.timestamp < r.start + BinWidth)
        && c[k].ohlc == Aggregate(Bucket(sorted, r.start)))
  {
    var r := CandleSourceRow(ticks, k);
    assert r.start != Candles(ticks)[k].start;
  }

  /** The row of the resample whose values plotted candle `k` shows: the latest
      non-empty bin at or before the candle's own. */
  lemma CandleSourceRow(ticks: seq<Tick>, k: nat) returns (r: Row)
    requires k < |Candles(ticks)|
    ensures var c := Candles(ticks);
      var sorted := SortByTime(ticks);
      && r in Resample(sorted) && r.start <= c[k].start && Bucket(sorted, r.start) != []
      && (forall t :: t in ticks && t.timestamp < c[k].start + BinWidth ==> t.timestamp < r.start + BinWidth)
      && c[k].ohlc == Aggregate(Bucket(sorted, r.start))
  {
    var sorted := SortByTime(ticks);
    var rows := Resample(sorted);
    var i := CandleIndex(ticks, k);
    var j := CandleSource(sorted, i);
    assert forall t :: t in ticks <==> t in sorted by {
      SortedMembers(ticks);
    }
    assert rows[j].start <= rows[i].start by {
      ResampleLayout(sorted);
    }
    r := rows[j];
  }

  /** Plotted candle `k` is forward-filled row `i` of the resample. */
  lemma CandleIndex(ticks: seq<Tick>, k: nat) returns (i: nat)
    requires k < |Candles(ticks)|
    ensures var rows := Resample(SortByTime(ticks));
      && ticks != [] && i < |rows|
      && Candles(ticks)[k].start == rows[i].start
      && Candles(ticks)[k].ohlc == ForwardFill(rows)[i].ohlc
  {
    var sorted := SortByTime(ticks);
    var rows := Resample(sorted);
    var filled := ForwardFill(rows);
    assert Candles(ticks) == LastWindow(filled);
    i := TrimIndex(filled, k);
    assert sorted != [];
    assert filled[i].start == rows[i].start by {
      ForwardFillRows(rows);
    }
  }

  /** Row `k` of the trim is row `i` of the trimmed frame. */
  lemma TrimIndex(rows: seq<Row>, k: nat) returns (i: nat)
    requires k < |LastWindow(rows)|
    ensures i < |rows| && LastWindow(rows)[k] == rows[i]
  {
    DropThroughRows(rows, rows[|rows| - 1].start - WindowSpan);
    i := |rows| - |LastWindow(rows)| + k;
  }

  /** The bin whose candle forward-filled row `i` of a resample shows. */
  lemma CandleSource(sorted: seq<Tick>, i: nat) returns (j: nat)
    requires SortedByTime(sorted) && sorted != [] && i < |Resample(sorted)|
    ensures var rows := Resample(sorted);
      && j <= i && Bucket(sorted, rows[j].start) != []
      && (forall t :: t in sorted && t.timestamp < rows[i].start + BinWidth ==> t.timestamp < rows[j].start + BinWidth)
      && ForwardFill(rows)[i].ohlc == Aggregate(Bucket(sorted, rows[j].start))
  {
    var rows := Resample(sorted);
    assert rows != [] && Contiguous(rows) by {
      ResampleLayout(sorted);
    }
    assert rows[0].ohlc.Some? by {
      ResampleEndsFilled(sorted);
    }
    assert forall i :: 0 <= i < |rows| ==> rows[i].ohlc == Aggregate(Bucket(sorted, rows[i].start)) by {
      ResampleRows(sorted);
    }
    assert forall t :: t in sorted ==> exists i :: 0 <= i < |rows| && InBin(t, rows[i].start) by {
      ResampleCovers(sorted);
    }
    j := FilledFromLatestRow(sorted, rows, i);
  }
}
