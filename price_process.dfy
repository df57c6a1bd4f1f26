/** The geometric-Brownian-motion price generator (`generate_gbm_price`).
    The random normal draw, `exp` and `sqrt` are foreign numerics: the model
    receives the growth factor `exp(drift + shock)` of each step as an input,
    so the pre-clamp price `previous * growth` is an arbitrary real. */
module PriceProcess {

  const MinPrice: real := 0.01
  const MaxPrice: real := 100.0

  function Min(a: real, b: real): real { if b < a then b else a }
  function Max(a: real, b: real): real { if b > a then b else a }

  /** `max(0.01, min(100.0, raw))`. */
  function Clamp(raw: real): (r: real)
    ensures MinPrice <= r <= MaxPrice
    ensures MinPrice <= raw <= MaxPrice ==> r == raw
    ensures raw < MinPrice ==> r == MinPrice
    ensures raw > MaxPrice ==> r == MaxPrice
  {
    Max(MinPrice, Min(MaxPrice, raw))
  }

  /** Clamping twice is clamping once. */
  lemma ClampIdempotent(raw: real)
    ensures Clamp(Clamp(raw)) == Clamp(raw)
  {
  }

  /** Clamping never reverses the order of two pre-clamp prices. */
  lemma ClampMonotone(a: real, b: real)
    requires a <= b
    ensures Clamp(a) <= Clamp(b)
  {
  }

  /** One generator step: the previous price times this step's growth factor, clamped. */
  function GbmPrice(previous: real, growth: real): (r: real)
    ensures MinPrice <= r <= MaxPrice
  {
    Clamp(previous * growth)
  }

  /** A step whose pre-clamp price is already in range is not altered by the clamp. */
  lemma GbmPriceUnclamped(previous: real, growth: real)
    requires MinPrice <= previous * growth <= MaxPrice
    ensures GbmPrice(previous, growth) == previous * growth
  {
  }

  /** A step whose growth factor is 1 leaves an in-range price where it was. */
  lemma GbmPriceNeutralStep(previous: real)
    requires MinPrice <= previous <= MaxPrice
    ensures GbmPrice(previous, 1.0) == previous
  {
  }

  /** The prices produced by repeated steps from `start`, one per growth factor. */
  function PricePath(start: real, growths: seq<real>): (path: seq<real>)
    ensures |path| == |growths|
    ensures forall i :: 0 <= i < |path| ==> MinPrice <= path[i] <= MaxPrice
    decreases |growths|
  {
    if growths == [] then []
    else
      var prefix := PricePath(start, growths[..|growths| - 1]);
      prefix + [GbmPrice(LastOr(start, prefix), growths[|growths| - 1])]
  }

  /** The most recent price of `path`, or `start` before the first step. */
  function LastOr(start: real, path: seq<real>): real
  {
    if path == [] then start else path[|path| - 1]
  }

  /** The path of a prefix of the draws is the prefix of the path. */
  lemma {:induction false} PricePathPrefix(start: real, growths: seq<real>, k: nat)
    requires k <= |growths|
    ensures PricePath(start, growths[..k]) == PricePath(start, growths)[..k]
    decreases |growths|
  {
    if k < |growths| {
      var shorter := growths[..|growths| - 1];
      assert growths[..k] == shorter[..k];
      PricePathPrefix(start, shorter, k);
    } else {
      assert growths[..k] == growths;
    }
  }

  /** Each price of the path is the clamped successor of the one before it,
      the first one of `start`. */
  lemma PricePathStep(start: real, growths: seq<real>, i: nat)
    requires i < |growths|
    ensures PricePath(start, growths)[i]
         == GbmPrice(if i == 0 then start else PricePath(start, growths)[i - 1], growths[i])
  {
    PricePathPrefix(start, growths, i + 1);
    PricePathPrefix(start, growths, i);
    assert growths[..i + 1][..i] == growths[..i];
  }
}
