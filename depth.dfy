/** The synthetic depth ladder of the "Depth Chart" panel: five bid and five ask
    levels derived from the current price alone. */
module Depth {

  /** One level of the book: its price and its quantity. */
  datatype Level = Level(price: real, size: int)

  const Levels: nat := 5

  /** `[(p * (1 - i*0.002), 1000 - i*100) for i in range(1, 6)]`; entry `k` is level `k + 1`. */
  function Bids(p: real): (bids: seq<Level>)
    ensures |bids| == Levels
  {
    seq(Levels, k requires 0 <= k < Levels => Level(p * (1.0 - (k + 1) as real * 0.002), 1000 - (k + 1) * 100))
  }

  /** `[(p * (1 + i*0.002), 1000 - i*100) for i in range(1, 6)]`. */
  function Asks(p: real): (asks: seq<Level>)
    ensures |asks| == Levels
  {
    seq(Levels, k requires 0 <= k < Levels => Level(p * (1.0 + (k + 1) as real * 0.002), 1000 - (k + 1) * 100))
  }

  /** Both sides show the sizes 900, 800, 700, 600, 500, level by level. */
  lemma LadderSizes(p: real)
    ensures forall k :: 0 <= k < Levels ==> Bids(p)[k].size == Asks(p)[k].size == 900 - 100 * k
    ensures forall k :: 0 <= k < Levels ==> Bids(p)[k].size > 0
  {
  }

  /** For a positive price the bids lie strictly below it, stay positive and fall
      strictly level by level. */
  lemma BidsDescend(p: real)
    requires p > 0.0
    ensures forall k :: 0 <= k < Levels ==> 0.0 < Bids(p)[k].price < p
    ensures forall i, j :: 0 <= i < j < Levels ==> Bids(p)[i].price > Bids(p)[j].price
  {
    var bids := Bids(p);
    forall k | 0 <= k < Levels
      ensures 0.0 < bids[k].price < p
    {
      var f := 1.0 - (k + 1) as real * 0.002;
      assert 0.0 < f < 1.0;
      assert bids[k].price == p * f;
    }
    forall i, j | 0 <= i < j < Levels
      ensures bids[i].price > bids[j].price
    {
      assert bids[i].price - bids[j].price == p * ((j - i) as real * 0.002);
    }
  }

  /** For a positive price the asks lie strictly above it and rise strictly level by level. */
  lemma AsksAscend(p: real)
    requires p > 0.0
    ensures forall k :: 0 <= k < Levels ==> p < Asks(p)[k].price
    ensures forall i, j :: 0 <= i < j < Levels ==> Asks(p)[i].price < Asks(p)[j].price
  {
    var asks := Asks(p);
    forall k | 0 <= k < Levels
      ensures p < asks[k].price
    {
      assert asks[k].price - p == p * ((k + 1) as real * 0.002);
    }
    forall i, j | 0 <= i < j < Levels
      ensures asks[i].price < asks[j].price
    {
      assert asks[j].price - asks[i].price == p * ((j - i) as real * 0.002);
    }
  }

  /** Bid and ask of the same level are symmetric about the price, and the spread
      between them widens by 0.4% of the price at each level. */
  lemma LadderSymmetric(p: real)
    ensures forall k :: 0 <= k < Levels ==> (Bids(p)[k].price + Asks(p)[k].price) / 2.0 == p
    ensures forall k :: 0 <= k < Levels ==>
      Asks(p)[k].price - Bids(p)[k].price == p * ((k + 1) as real * 0.004)
  {
    forall k | 0 <= k < Levels
      ensures Bids(p)[k].price + Asks(p)[k].price == 2.0 * p
      ensures Asks(p)[k].price - Bids(p)[k].price == p * ((k + 1) as real * 0.004)
    {
      var d := (k + 1) as real * 0.002;
      assert Bids(p)[k].price == p * (1.0 - d);
      assert Asks(p)[k].price == p * (1.0 + d);
    }
  }

  /** At a price of 1.00 the innermost levels are 0.998 and 1.002, both of size 900. */
  lemma LadderAtOne()
    ensures Bids(1.0)[0] == Level(0.998, 900)
    ensures Asks(1.0)[0] == Level(1.002, 900)
  {
  }
}
