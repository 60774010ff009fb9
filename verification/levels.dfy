/** Support and resistance levels of a daily price series.

    A price is a `real`: the program only compares prices and scales them by
    the fixed factors 1 - 0.02 and 1 + 0.02, which are exact rationals here. */
module PriceLevels {

  /** Relative margin a new level must clear beyond the previous one of its kind. */
  const Tolerance: real := 0.02

  /** The two kinds of level: a support is a local minimum, a resistance a local maximum. */
  datatype Kind = Support | Resistance

  /** The two lists the detector grows, in the order their values were accepted. */
  datatype Levels = Levels(supports: seq<real>, resistances: seq<real>)
  {
    /** The list of kind `k`. */
    function Of(k: Kind): (levels: seq<real>)
    {
      match k
      case Support => supports
      case Resistance => resistances
    }

    /** The early-exit test: both lists hold at least three levels. */
    predicate Done()
    {
      |supports| >= 3 && |resistances| >= 3
    }
  }

  /** Where the scan ended: the accumulated lists, and the value of the loop
      index when the loop was left (the breaking index, or the first index
      past the interior when the loop ran out). */
  datatype ScanOutcome = ScanOutcome(levels: Levels, stoppedAt: int)

  const NoLevels := Levels([], [])

  /** Index `i` is strictly below both of its neighbours. */
  predicate IsLocalMin(p: seq<real>, i: int)
    requires 1 <= i < |p| - 1
  {
    p[i] < p[i - 1] && p[i] < p[i + 1]
  }

  /** Index `i` is strictly above both of its neighbours. */
  predicate IsLocalMax(p: seq<real>, i: int)
    requires 1 <= i < |p| - 1
  {
    p[i] > p[i - 1] && p[i] > p[i + 1]
  }

  predicate IsExtremum(p: seq<real>, i: int, k: Kind)
    requires 1 <= i < |p| - 1
  {
    match k
    case Support => IsLocalMin(p, i)
    case Resistance => IsLocalMax(p, i)
  }

  /** `x` lies beyond `last` by more than the tolerance, in the direction of kind `k`. */
  predicate Beyond(x: real, last: real, k: Kind)
  {
    match k
    case Support => x < last * (1.0 - Tolerance)
    case Resistance => x > last * (1.0 + Tolerance)
  }

  /** The acceptance test: the list is still empty, or `x` clears its last entry. */
  predicate Accepts(levels: seq<real>, x: real, k: Kind)
  {
    |levels| == 0 || Beyond(x, levels[|levels| - 1], k)
  }

  /** One iteration of the scan at interior index `i`, without the exit test. */
  function Step(p: seq<real>, i: int, lv: Levels): (next: Levels)
    requires 1 <= i < |p| - 1
    ensures |next.supports| + |next.resistances| <= |lv.supports| + |lv.resistances| + 1
    ensures next.supports != lv.supports ==>
              IsLocalMin(p, i) && Accepts(lv.supports, p[i], Support) && next.supports == lv.supports + [p[i]]
    ensures next.resistances != lv.resistances ==>
              IsLocalMax(p, i) && Accepts(lv.resistances, p[i], Resistance) && next.resistances == lv.resistances + [p[i]]
    ensures IsLocalMin(p, i) && Accepts(lv.supports, p[i], Support) ==> next.supports == lv.supports + [p[i]]
    ensures IsLocalMax(p, i) && Accepts(lv.resistances, p[i], Resistance) ==> next.resistances == lv.resistances + [p[i]]
    ensures IsLocalMin(p, i) ==> next.resistances == lv.resistances
  {
    if IsLocalMin(p, i) then
      if Accepts(lv.supports, p[i], Support) then lv.(supports := lv.supports + [p[i]]) else lv
    else if IsLocalMax(p, i) then
      if Accepts(lv.resistances, p[i], Resistance) then lv.(resistances := lv.resistances + [p[i]]) else lv
    else
      lv
  }

  /** The scan from index `i` on, with `lv` accumulated so far: it stops at the
      end of the interior, or right after the step that makes both lists reach three. */
  function Scan(p: seq<real>, i: int, lv: Levels): (o: ScanOutcome)
    requires 1 <= i
    ensures i <= o.stoppedAt <= if i < |p| - 1 then |p| - 1 else i
    decreases |p| - i
  {
    if i >= |p| - 1 then
      ScanOutcome(lv, i)
    else
      var next := Step(p, i, lv);
      if next.Done() then ScanOutcome(next, i) else Scan(p, i + 1, next)
  }

  /** The whole detector: a scan of the interior indices starting from two empty lists. */
  function Detect(p: seq<real>): (o: ScanOutcome)
    ensures 1 <= o.stoppedAt <= if |p| < 3 then 1 else |p| - 1
    ensures |p| < 3 ==> o.levels == NoLevels
  {
    Scan(p, 1, NoLevels)
  }

  /** The detector as the program runs it: one loop over the interior
      indices that appends to two growing lists and breaks once both hold three. */
  method CalculateMultipleSupportResistance(prices: seq<real>) returns (supports: seq<real>, resistances: seq<real>)
    ensures Levels(supports, resistances) == Detect(prices).levels
    ensures |prices| < 3 ==> supports == [] && resistances == []
  {
    supports := [];
    resistances := [];
    var i := 1;
    while i < |prices| - 1
      invariant 1 <= i
      invariant Scan(prices, i, Levels(supports, resistances)) == Detect(prices)
      decreases |prices| - i
    {
      ghost var before := Levels(supports, resistances);
      if prices[i] < prices[i - 1] && prices[i] < prices[i + 1] {
        if |supports| == 0 || prices[i] < supports[|supports| - 1] * (1.0 - Tolerance) {
          supports := supports + [prices[i]];
        }
      } else if prices[i] > prices[i - 1] && prices[i] > prices[i + 1] {
        if |resistances| == 0 || prices[i] > resistances[|resistances| - 1] * (1.0 + Tolerance) {
          resistances := resistances + [prices[i]];
        }
      }
      assert Levels(supports, resistances) == Step(prices, i, before);
      if |supports| >= 3 && |resistances| >= 3 {
        break;
      }
      i := i + 1;
    }
  }

  /** The global support and resistance: the lowest and the highest price of
      a non-empty series, found with two running accumulators. */
  method CalculateSupportResistance(prices: seq<real>) returns (support: real, resistance: real)
    requires |prices| > 0
    ensures support in prices && resistance in prices
    ensures forall i :: 0 <= i < |prices| ==> support <= prices[i] <= resistance
  {
    support := prices[0];
    resistance := prices[0];
    for j := 0 to |prices|
      invariant support in prices && resistance in prices
      invariant forall i :: 0 <= i < j ==> support <= prices[i] <= resistance
    {
      var price := prices[j];
      if price < support {
        support := price;
      }
      if price > resistance {
        resistance := price;
      }
    }
  }
}
