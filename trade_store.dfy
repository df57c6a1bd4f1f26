/** The `trades` table and its cold-start backfill (`init_db`).
    The table is an append-only sequence of rows; the sqlite connection,
    the SQL text and the ISO-8601 formatting of timestamps are not modelled. */
module TradeStore {
  import opened Market
  import opened PriceProcess

  const BackfillCount: nat := 360
  const BackfillStartPrice: real := 0.08
  /** 30 minutes, in seconds. */
  const HistorySpan: int := 1800

  /** `utcnow().replace(second=0, microsecond=0) - timedelta(minutes=30)` for a
      clock reading of `now` whole seconds: the start of the minute, 30 minutes back. */
  function BackfillBase(now: int): (base: int)
    ensures base % 60 == 0
    ensures base <= now - HistorySpan < base + 60
  {
    now - now % 60 - HistorySpan
  }

  /** A run of prices stamped 5 seconds apart from `base`. */
  function Stamped(base: int, path: seq<real>): (rows: seq<Tick>)
    ensures |rows| == |path|
    ensures forall i :: 0 <= i < |path| ==> rows[i] == Tick(base + 5 * i, path[i])
  {
    if path == [] then []
    else Stamped(base, path[..|path| - 1]) + [Tick(base + 5 * (|path| - 1), path[|path| - 1])]
  }

  /** The rows the backfill inserts: row `i` is stamped `base + 5*i` and carries
      the `i`-th price of the path started at 0.08. */
  function BackfillRows(base: int, growths: seq<real>): (rows: seq<Tick>)
    ensures |rows| == |growths|
  {
    Stamped(base, PricePath(BackfillStartPrice, growths))
  }

  /** Iteration `i` of the backfill loop: stamping one more price of the path adds the
      clamped successor of the previous price at the next 5-second slot. */
  lemma BackfillStep(base: int, growths: seq<real>, i: nat)
    requires i < |growths|
    ensures var path := PricePath(BackfillStartPrice, growths);
      && path[i] == GbmPrice(LastOr(BackfillStartPrice, path[..i]), growths[i])
      && Stamped(base, path[..i + 1]) == Stamped(base, path[..i]) + [Tick(base + 5 * i, path[i])]
  {
    var path := PricePath(BackfillStartPrice, growths);
    PricePathStep(BackfillStartPrice, growths, i);
    assert path[..i + 1][..i] == path[..i];
  }

  /** The backfill schedule: 360 rows, 5 seconds apart from `base`, strictly
      increasing, the last 1795 seconds after `base`; every price is in range and is
      the clamped successor of the previous row's price, the first one of 0.08. */
  lemma BackfillSchedule(base: int, growths: seq<real>)
    requires |growths| == BackfillCount
    ensures var rows := BackfillRows(base, growths);
      && |rows| == 360
      && (forall i :: 0 <= i < |rows| ==> rows[i].timestamp == base + 5 * i)
      && StrictlyIncreasing(rows)
      && rows[0].timestamp == base
      && rows[359].timestamp == base + 1795
      && (forall i :: 0 <= i < |rows| ==> MinPrice <= rows[i].price <= MaxPrice)
      && rows[0].price == GbmPrice(0.08, growths[0])
      && (forall i :: 0 < i < |rows| ==> rows[i].price == GbmPrice(rows[i - 1].price, growths[i]))
  {
    var rows := BackfillRows(base, growths);
    PricePathStep(BackfillStartPrice, growths, 0);
    forall i | 0 < i < |rows|
      ensures rows[i].price == GbmPrice(rows[i - 1].price, growths[i])
    {
      PricePathStep(BackfillStartPrice, growths, i);
    }
  }

  /** Every backfilled row is stamped at least 5 seconds before the clock reading
      that produced `base`, so a row inserted at that reading comes after all of them. */
  lemma BackfillPrecedesNow(now: int, growths: seq<real>)
    requires |growths| == BackfillCount
    ensures forall t :: t in BackfillRows(BackfillBase(now), growths) ==> t.timestamp <= now - 5
  {
    var rows := BackfillRows(BackfillBase(now), growths);
    forall t | t in rows
      ensures t.timestamp <= now - 5
    {
      var i :| 0 <= i < |rows| && rows[i] == t;
    }
  }

  /** The trades table: rows in insertion order. */
  class Store {
    var rows: seq<Tick>

    /** Opens the table with whatever rows it already holds. */
    constructor (persisted: seq<Tick>)
      ensures rows == persisted
    {
      rows := persisted;
    }

    /** `INSERT INTO trades VALUES (...)`: the row goes at the end; nothing is checked. */
    method Insert(t: Tick)
      modifies this
      ensures rows == old(rows) + [t]
    {
      rows := rows + [t];
    }

    /** `init_db`: when the table is empty, inserts the 360-row backfill built from the
        clock reading `now` and one growth factor per row; otherwise leaves it alone. */
    method InitDb(now: int, growths: seq<real>)
      requires |growths| == BackfillCount
      modifies this
      ensures old(rows) != [] ==> rows == old(rows)
      ensures old(rows) == [] ==> rows == BackfillRows(BackfillBase(now), growths)
    {
      if |rows| == 0 {
        var base := BackfillBase(now);
        var price := BackfillStartPrice;
        ghost var path := PricePath(BackfillStartPrice, growths);
        for i := 0 to BackfillCount
          invariant rows == Stamped(base, path[..i])
          invariant price == LastOr(BackfillStartPrice, path[..i])
        {
          var timestamp := base + 5 * i;
          price := GbmPrice(price, growths[i]);
          BackfillStep(base, growths, i);
          Insert(Tick(timestamp, price));
        }
        assert path[..BackfillCount] == path;
      }
    }
  }
}
