/** Values shared by every part of the dashboard model. */
module Market {

  datatype Option<+T> = None | Some(value: T)

  /** One row of the `trades` table: a UTC time in whole seconds and a price.
      The symbol column is always "DOGE-USD" in the dashboard and is not kept. */
  datatype Tick = Tick(timestamp: int, price: real)

  /** Timestamps never decrease along `s`. */
  predicate SortedByTime(s: seq<Tick>)
  {
    forall i, j :: 0 <= i < j < |s| ==> s[i].timestamp <= s[j].timestamp
  }

  /** Timestamps strictly increase along `s`. */
  predicate StrictlyIncreasing(s: seq<Tick>)
  {
    forall i, j :: 0 <= i < j < |s| ==> s[i].timestamp < s[j].timestamp
  }

  function Prices(s: seq<Tick>): (ps: seq<real>)
    ensures |ps| == |s|
    ensures forall i :: 0 <= i < |s| ==> ps[i] == s[i].price
  {
    seq(|s|, i requires 0 <= i < |s| => s[i].price)
  }
}
