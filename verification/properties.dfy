/** What the level detector guarantees about every price series. */
module LevelProperties {
  import opened PriceLevels

  /** Every level sits at a strict interior extremum of its kind: `at[j]` is
      the index whose price became level `j`, and the indices increase, so the
      levels keep the order in which the scan met them. */
  predicate SitesOf(p: seq<real>, levels: seq<real>, k: Kind, at: seq<int>)
  {
    |at| == |levels| &&
    (forall j :: 0 <= j < |at| ==>
       1 <= at[j] < |p| - 1 && IsExtremum(p, at[j], k) && levels[j] == p[at[j]]) &&
    (forall j1, j2 :: 0 <= j1 < j2 < |at| ==> at[j1] < at[j2])
  }

  /** Each level of kind `k` clears the one before it by more than the tolerance. */
  predicate Chained(levels: seq<real>, k: Kind)
  {
    forall j :: 0 <= j < |levels| - 1 ==> Beyond(levels[j + 1], levels[j], k)
  }

  /** Strictly decreasing for supports, strictly increasing for resistances. */
  predicate StrictlyOrdered(levels: seq<real>, k: Kind)
  {
    match k
    case Support => forall a, b :: 0 <= a < b < |levels| ==> levels[b] < levels[a]
    case Resistance => forall a, b :: 0 <= a < b < |levels| ==> levels[b] > levels[a]
  }

  /** One step seen through a kind: the list of kind `k` grows by the price at
      `i` exactly when `i` is an extremum of that kind that the test accepts. */
  lemma StepOf(p: seq<real>, i: int, lv: Levels, k: Kind)
    requires 1 <= i < |p| - 1
    ensures lv.Of(k) <= Step(p, i, lv).Of(k)
    ensures Step(p, i, lv).Of(k) ==
            if IsExtremum(p, i, k) && Accepts(lv.Of(k), p[i], k) then lv.Of(k) + [p[i]] else lv.Of(k)
  {
  }

  /** The lists only ever grow at their end. */
  lemma {:induction false} ScanExtends(p: seq<real>, i: int, lv: Levels, k: Kind)
    requires 1 <= i
    ensures lv.Of(k) <= Scan(p, i, lv).levels.Of(k)
    decreases |p| - i
  {
    if i < |p| - 1 {
      var next := Step(p, i, lv);
      StepOf(p, i, lv, k);
      if !next.Done() {
        ScanExtends(p, i + 1, next, k);
      }
    }
  }

  lemma SitesGrow(p: seq<real>, levels: seq<real>, k: Kind, at: seq<int>, i: int)
    requires SitesOf(p, levels, k, at)
    requires forall j :: 0 <= j < |at| ==> at[j] < i
    requires 1 <= i < |p| - 1 && IsExtremum(p, i, k)
    ensures SitesOf(p, levels + [p[i]], k, at + [i])
  {
  }

  /** `SitesOf`, with every site at or before index `hi`. */
  predicate SitesUpTo(p: seq<real>, levels: seq<real>, k: Kind, at: seq<int>, hi: int)
  {
    SitesOf(p, levels, k, at) && forall j :: 0 <= j < |at| ==> at[j] <= hi
  }

  /** Every support is the price of a strict interior local minimum, every
      resistance that of a strict interior local maximum, taken in scan order
      and never past the index where the scan stopped. */
  lemma LevelSites(p: seq<real>, k: Kind) returns (at: seq<int>)
    ensures SitesOf(p, Detect(p).levels.Of(k), k, at)
    ensures forall j :: 0 <= j < |at| ==> at[j] <= Detect(p).stoppedAt
  {
    at := LevelsComplete(p, k);
  }

  /** No extremum of kind `k` at an index up to `hi` comes before the first site. */
  predicate NoneMissedBefore(p: seq<real>, k: Kind, at: seq<int>, hi: int)
  {
    forall i :: 1 <= i <= hi && i < |p| - 1 && IsExtremum(p, i, k) ==> |at| > 0 && at[0] <= i
  }

  /** Every extremum of kind `k` at an index up to `hi` that lies after site `j`
      and before the next site fails the tolerance test against level `j`. */
  predicate RejectedBetween(p: seq<real>, levels: seq<real>, k: Kind, at: seq<int>, hi: int)
    requires |at| == |levels|
  {
    forall j, i ::
      0 <= j < |at| && 1 <= i && at[j] < i <= hi && i < |p| - 1 && (j == |at| - 1 || i < at[j + 1]) &&
      IsExtremum(p, i, k)
      ==> !Beyond(p[i], levels[j], k)
  }

  /** The sites, and every extremum up to `hi` missing from them was rejected by the test. */
  predicate TraceUpTo(p: seq<real>, levels: seq<real>, k: Kind, at: seq<int>, hi: int)
  {
    SitesUpTo(p, levels, k, at, hi) && NoneMissedBefore(p, k, at, hi) && RejectedBetween(p, levels, k, at, hi)
  }

  lemma TraceKeep(p: seq<real>, levels: seq<real>, k: Kind, at: seq<int>, i: int)
    requires 1 <= i < |p| - 1
    requires TraceUpTo(p, levels, k, at, i - 1)
    requires !(IsExtremum(p, i, k) && Accepts(levels, p[i], k))
    ensures TraceUpTo(p, levels, k, at, i)
  {
    if IsExtremum(p, i, k) {
      var last := |at| - 1;
      assert |at| > 0 && !Beyond(p[i], levels[last], k);
      forall j, i' | 0 <= j < |at| && 1 <= i' && at[j] < i' <= i && i' < |p| - 1 && (j == |at| - 1 || i' < at[j + 1]) && IsExtremum(p, i', k)
        ensures !Beyond(p[i'], levels[j], k)
      {
      }
    }
  }

  lemma TraceAppend(p: seq<real>, levels: seq<real>, k: Kind, at: seq<int>, i: int)
    requires 1 <= i < |p| - 1
    requires TraceUpTo(p, levels, k, at, i - 1)
    requires IsExtremum(p, i, k) && Accepts(levels, p[i], k)
    ensures TraceUpTo(p, levels + [p[i]], k, at + [i], i)
  {
    var levels', at' := levels + [p[i]], at + [i];
    SitesGrow(p, levels, k, at, i);
    assert NoneMissedBefore(p, k, at', i) by {
      if |at| > 0 {
        assert at'[0] == at[0];
      }
    }
    forall j, i' | 0 <= j < |at'| && 1 <= i' && at'[j] < i' <= i && i' < |p| - 1 && (j == |at'| - 1 || i' < at'[j + 1]) && IsExtremum(p, i', k)
      ensures !Beyond(p[i'], levels'[j], k)
    {
      assert j < |at|;
      assert at'[j] == at[j] && levels'[j] == levels[j];
      if j < |at| - 1 {
        assert at'[j + 1] == at[j + 1];
      }
    }
  }

  lemma StepTrace(p: seq<real>, i: int, lv: Levels, k: Kind, at: seq<int>) returns (grown: seq<int>)
    requires 1 <= i < |p| - 1
    requires TraceUpTo(p, lv.Of(k), k, at, i - 1)
    ensures TraceUpTo(p, Step(p, i, lv).Of(k), k, grown, i)
  {
    StepOf(p, i, lv, k);
    if IsExtremum(p, i, k) && Accepts(lv.Of(k), p[i], k) {
      grown := at + [i];
      TraceAppend(p, lv.Of(k), k, at, i);
    } else {
      grown := at;
      TraceKeep(p, lv.Of(k), k, at, i);
    }
  }

  lemma TraceTransport(p: seq<real>, levels: seq<real>, levels': seq<real>, k: Kind, at: seq<int>, hi: int, hi': int)
    requires TraceUpTo(p, levels, k, at, hi)
    requires levels' == levels && hi <= hi'
    requires hi' > hi ==> hi >= |p| - 2
    ensures TraceUpTo(p, levels', k, at, hi')
  {
  }

  lemma {:induction false} ScanTrace(p: seq<real>, i: int, lv: Levels, k: Kind, at: seq<int>) returns (at': seq<int>)
    requires 1 <= i
    requires TraceUpTo(p, lv.Of(k), k, at, i - 1)
    ensures TraceUpTo(p, Scan(p, i, lv).levels.Of(k), k, at', Scan(p, i, lv).stoppedAt)
    decreases |p| - i
  {
    var o := Scan(p, i, lv);
    if i >= |p| - 1 {
      at' := at;
      TraceTransport(p, lv.Of(k), o.levels.Of(k), k, at, i - 1, o.stoppedAt);
    } else {
      var next := Step(p, i, lv);
      var grown := StepTrace(p, i, lv, k, at);
      if next.Done() {
        at' := grown;
        TraceTransport(p, next.Of(k), o.levels.Of(k), k, grown, i, o.stoppedAt);
      } else {
        var o' := Scan(p, i + 1, next);
        at' := ScanTrace(p, i + 1, next, k, grown);
        TraceTransport(p, o'.levels.Of(k), o.levels.Of(k), k, at', o'.stoppedAt, o.stoppedAt);
      }
    }
  }

  /** Which extrema become levels. The sites of `LevelSites`; every level
      clears the one before it by the tolerance; and every extremum of kind `k`
      that the scan reached and that is not a site was turned down by the test:
      none comes before the first level, and one that falls after level `j`
      (and before the next level, if any) does not lie beyond level `j`. */
  lemma LevelsComplete(p: seq<real>, k: Kind) returns (at: seq<int>)
    ensures SitesOf(p, Detect(p).levels.Of(k), k, at)
    ensures forall j :: 0 <= j < |at| ==> at[j] <= Detect(p).stoppedAt
    ensures Chained(Detect(p).levels.Of(k), k)
    ensures forall i :: 1 <= i <= Detect(p).stoppedAt && i < |p| - 1 && IsExtremum(p, i, k) ==> |at| > 0 && at[0] <= i
    ensures forall j, i ::
              0 <= j < |at| && 1 <= i && at[j] < i <= Detect(p).stoppedAt && i < |p| - 1 &&
              (j == |at| - 1 || i < at[j + 1]) && IsExtremum(p, i, k)
              ==> !Beyond(p[i], Detect(p).levels.Of(k)[j], k)
  {
    assert TraceUpTo(p, [], k, [], 0);
    at := ScanTrace(p, 1, NoLevels, k, []);
    LevelsChained(p, k);
  }

  lemma {:induction false} ScanKeepsChain(p: seq<real>, i: int, lv: Levels, k: Kind)
    requires 1 <= i
    requires Chained(lv.Of(k), k)
    ensures Chained(Scan(p, i, lv).levels.Of(k), k)
    decreases |p| - i
  {
    if i < |p| - 1 {
      var next := Step(p, i, lv);
      StepOf(p, i, lv, k);
      assert Chained(next.Of(k), k);
      if !next.Done() {
        ScanKeepsChain(p, i + 1, next, k);
      }
    }
  }

  /** Consecutive supports satisfy `s[j+1] < s[j] * (1 - 0.02)`, consecutive
      resistances `r[j+1] > r[j] * (1 + 0.02)`. */
  lemma LevelsChained(p: seq<real>, k: Kind)
    ensures Chained(Detect(p).levels.Of(k), k)
  {
    ScanKeepsChain(p, 1, NoLevels, k);
  }

  /** With no negative entries, a chain is strictly ordered in its direction. */
  lemma {:induction false} ChainedNonNegativeIsOrdered(levels: seq<real>, k: Kind)
    requires Chained(levels, k)
    requires forall j :: 0 <= j < |levels| ==> levels[j] >= 0.0
    ensures StrictlyOrdered(levels, k)
  {
    if |levels| > 1 {
      var init := levels[..|levels| - 1];
      assert Chained(init, k);
      ChainedNonNegativeIsOrdered(init, k);
      var b := |levels| - 1;
      assert Beyond(levels[b], levels[b - 1], k);
      forall a | 0 <= a < b ensures init[a] == levels[a] {
      }
    }
  }

  /** For a series of non-negative prices, supports strictly decrease and
      resistances strictly increase. */
  lemma NonNegativeSeriesOrdersLevels(p: seq<real>, k: Kind)
    requires forall i :: 0 <= i < |p| ==> p[i] >= 0.0
    ensures StrictlyOrdered(Detect(p).levels.Of(k), k)
  {
    var at := LevelSites(p, k);
    LevelsChained(p, k);
    ChainedNonNegativeIsOrdered(Detect(p).levels.Of(k), k);
  }

  lemma {:induction false} ScanFirst(p: seq<real>, i: int, lv: Levels, k: Kind, first: int)
    requires 1 <= i <= first < |p| - 1
    requires lv.Of(k) == []
    requires IsExtremum(p, first, k)
    requires forall j :: i <= j < first ==> !IsExtremum(p, j, k)
    ensures |Scan(p, i, lv).levels.Of(k)| > 0 && Scan(p, i, lv).levels.Of(k)[0] == p[first]
    decreases first - i
  {
    var next := Step(p, i, lv);
    StepOf(p, i, lv, k);
    if i == first {
      assert next.Of(k) == [p[first]];
      if !next.Done() {
        ScanExtends(p, i + 1, next, k);
      }
    } else {
      assert next.Of(k) == [];
      assert !next.Done() by {
        match k
        case Support =>
        case Resistance =>
      }
      ScanFirst(p, i + 1, next, k, first);
    }
  }

  /** The first strict interior extremum of a kind is always accepted, as the
      first level of that kind: the list is empty when the scan meets it, and
      the scan cannot have stopped before it. */
  lemma FirstExtremumLeads(p: seq<real>, k: Kind, first: int)
    requires 1 <= first < |p| - 1
    requires IsExtremum(p, first, k)
    requires forall j :: 1 <= j < first ==> !IsExtremum(p, j, k)
    ensures |Detect(p).levels.Of(k)| > 0 && Detect(p).levels.Of(k)[0] == p[first]
  {
    ScanFirst(p, 1, NoLevels, k, first);
  }

  lemma {:induction false} ScanNoExtremum(p: seq<real>, i: int, lv: Levels, k: Kind)
    requires 1 <= i
    requires lv.Of(k) == []
    requires forall j :: i <= j < |p| - 1 ==> !IsExtremum(p, j, k)
    ensures Scan(p, i, lv).levels.Of(k) == []
    decreases |p| - i
  {
    if i < |p| - 1 {
      var next := Step(p, i, lv);
      StepOf(p, i, lv, k);
      assert next.Of(k) == [];
      assert !next.Done() by {
        match k
        case Support =>
        case Resistance =>
      }
      ScanNoExtremum(p, i + 1, next, k);
    }
  }

  /** A series without a strict interior extremum of a kind yields no level of that kind. */
  lemma NoExtremumNoLevels(p: seq<real>, k: Kind)
    requires forall i :: 1 <= i < |p| - 1 ==> !IsExtremum(p, i, k)
    ensures Detect(p).levels.Of(k) == []
  {
    ScanNoExtremum(p, 1, NoLevels, k);
  }

  /** A non-decreasing or non-increasing series, a flat one included, yields
      no support and no resistance. */
  lemma MonotoneSeriesHasNoLevels(p: seq<real>)
    requires (forall a, b :: 0 <= a < b < |p| ==> p[a] <= p[b]) ||
             (forall a, b :: 0 <= a < b < |p| ==> p[a] >= p[b])
    ensures Detect(p).levels == NoLevels
  {
    forall k: Kind, i | 1 <= i < |p| - 1 ensures !IsExtremum(p, i, k) {
      assert p[i - 1] <= p[i] <= p[i + 1] || p[i - 1] >= p[i] >= p[i + 1];
    }
    NoExtremumNoLevels(p, Support);
    NoExtremumNoLevels(p, Resistance);
  }

  lemma {:induction false} ScanCountBound(p: seq<real>, i: int, lv: Levels)
    requires 1 <= i
    requires |lv.supports| + |lv.resistances| <= i - 1
    ensures |Scan(p, i, lv).levels.supports| + |Scan(p, i, lv).levels.resistances|
            <= if i >= |p| - 1 then i - 1 else |p| - 2
    decreases |p| - i
  {
    if i < |p| - 1 {
      var next := Step(p, i, lv);
      if !next.Done() {
        ScanCountBound(p, i + 1, next);
      }
    }
  }

  /** Each interior index adds at most one value across both lists, so the
      lists together hold at most `|p| - 2` levels, and none when `|p| < 3`. */
  lemma LevelCountBound(p: seq<real>)
    ensures |Detect(p).levels.supports| + |Detect(p).levels.resistances|
            <= if |p| < 3 then 0 else |p| - 2
  {
    ScanCountBound(p, 1, NoLevels);
  }

  lemma {:induction false} ScanExit(p: seq<real>, i: int, lv: Levels)
    requires 1 <= i <= if |p| < 2 then 1 else |p| - 1
    requires !lv.Done()
    ensures var o := Scan(p, i, lv);
            (o.stoppedAt < |p| - 1 <==> o.levels.Done()) &&
            (o.stoppedAt < |p| - 1 ==>
               1 <= o.stoppedAt &&
               if IsLocalMin(p, o.stoppedAt) then |o.levels.supports| == 3
               else IsLocalMax(p, o.stoppedAt) && |o.levels.resistances| == 3) &&
            (o.stoppedAt >= |p| - 1 ==> o.stoppedAt == if |p| < 2 then 1 else |p| - 1)
    decreases |p| - i
  {
    if i < |p| - 1 {
      var next := Step(p, i, lv);
      if !next.Done() {
        ScanExit(p, i + 1, next);
      }
    }
  }

  /** The early exit: the scan breaks exactly when both lists have reached
      three levels; the list that grew on the breaking step then holds exactly
      three; and without a break every interior index was scanned. */
  lemma EarlyExit(p: seq<real>)
    ensures var o := Detect(p);
            (o.stoppedAt < |p| - 1 <==> o.levels.Done()) &&
            (o.stoppedAt < |p| - 1 ==>
               1 <= o.stoppedAt &&
               if IsLocalMin(p, o.stoppedAt) then |o.levels.supports| == 3
               else IsLocalMax(p, o.stoppedAt) && |o.levels.resistances| == 3) &&
            (o.stoppedAt >= |p| - 1 ==> o.stoppedAt == if |p| < 2 then 1 else |p| - 1)
  {
    ScanExit(p, 1, NoLevels);
  }

  /** Every level lies between the lowest and the highest price of the series,
      the pair the global support/resistance operation returns. */
  lemma LevelsWithinRange(p: seq<real>, low: real, high: real, k: Kind)
    requires forall i :: 0 <= i < |p| ==> low <= p[i] <= high
    ensures forall j :: 0 <= j < |Detect(p).levels.Of(k)| ==> low <= Detect(p).levels.Of(k)[j] <= high
  {
    var at := LevelSites(p, k);
  }
}
