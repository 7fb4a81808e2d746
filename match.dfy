/**
 * The match pipeline: for one base trip and a list of candidate trips,
 * filter by departure window, route overlap and estimated detour, score the
 * survivors, and rank them.
 */
module Match {
  import opened Geo
  import opened Records
  import opened Ranking
  import JsNumber

  /** Candidates departing more than this many minutes away are rejected. */
  const TimeWindowMin: real := 30.0
  /** Candidates whose estimated detour exceeds this percentage are rejected. */
  const MaxDeviationPct: real := 15.0
  /** Candidates whose route overlap is below this percentage are rejected. */
  const MinOverlapPct: real := 15.0

  function Min(x: real, y: real): real { if x <= y then x else y }
  function Max(x: real, y: real): real { if x >= y then x else y }

  // ---------------------------------------------------------------------
  // Lengths and time

  /**
   * `pathLengthM(points) || totalDistanceM || 1`: a zero path length (no
   * geometry) falls back to the stored distance, and a missing or zero
   * stored distance falls back to 1.
   */
  function LengthOrFallback(pathLen: real, total: Option<real>): (r: real)
    ensures r != 0.0
    ensures pathLen != 0.0 ==> r == pathLen
    ensures pathLen == 0.0 && total.Some? && total.value != 0.0 ==> r == total.value
    ensures pathLen >= 0.0 && (total.None? || total.value >= 0.0) ==> r > 0.0
    ensures pathLen == 0.0 && (total.None? || total.value == 0.0) ==> r == 1.0
  {
    if pathLen != 0.0 then pathLen
    else if total.Some? && total.value != 0.0 then total.value
    else 1.0
  }

  /** The length a trip's deviation is measured against. */
  function RouteLength(dist: (Point, Point) -> real, trip: Trip): (r: real)
    ensures r != 0.0
    ensures |trip.route| < 2 && trip.totalDistanceM.Some? && trip.totalDistanceM.value != 0.0 ==>
      r == trip.totalDistanceM.value
    ensures |trip.route| < 2 && (trip.totalDistanceM.None? || trip.totalDistanceM.value == 0.0) ==> r == 1.0
    ensures IsDistance(dist) && NonNegativeTotal(trip) ==> r > 0.0
  {
    LengthOrFallback(PathLength(dist, trip.route), trip.totalDistanceM)
  }

  /** The stored total distance is absent or not negative. */
  predicate NonNegativeTotal(trip: Trip) {
    trip.totalDistanceM.None? || trip.totalDistanceM.value >= 0.0
  }

  /** `Math.abs(cDepart - baseDepart) / 60000`, in minutes. */
  function DeltaMinutes(baseMs: int, candMs: int): (r: real)
    ensures r >= 0.0
    ensures r <= TimeWindowMin <==> -1800000 <= candMs - baseMs <= 1800000
  {
    (if candMs >= baseMs then candMs - baseMs else baseMs - candMs) as real / 60000.0
  }

  // ---------------------------------------------------------------------
  // Detour estimate

  /**
   * Road-to-straight-line ratio of the base trip: its stored total over its
   * straight-line length, or 1 when the total is missing or zero or the
   * straight-line length is not positive.
   */
  function DetourScale(total: Option<real>, proxy: real): (r: real)
    ensures (total.None? || total.value == 0.0 || proxy <= 0.0) ==> r == 1.0
    ensures (total.None? || total.value >= 0.0) ==> r >= 0.0
    ensures (total.None? || total.value > 0.0) ==> r > 0.0
  {
    if total.Some? && total.value != 0.0 && proxy > 0.0 then
      JsNumber.QuotientBounds(total.value, proxy);
      total.value / proxy
    else 1.0
  }

  /** Base pickup, candidate pickup, candidate drop, base drop. */
  function PickupFirstLegs(dist: (Point, Point) -> real, a: Trip, b: Trip): (r: real)
    ensures IsDistance(dist) ==> r >= 0.0
    ensures IsDistance(dist) && b.pickup == a.pickup && b.drop == a.drop ==> r == dist(a.pickup, a.drop)
  {
    dist(a.pickup, b.pickup) + dist(b.pickup, b.drop) + dist(b.drop, a.drop)
  }

  /** Base pickup, candidate drop, candidate pickup, base drop. */
  function DropFirstLegs(dist: (Point, Point) -> real, a: Trip, b: Trip): (r: real)
    ensures r == PickupFirstLegs(dist, a, b.(pickup := b.drop, drop := b.pickup))
    ensures IsDistance(dist) ==> r >= 0.0
  {
    dist(a.pickup, b.drop) + dist(b.drop, b.pickup) + dist(b.pickup, a.drop)
  }

  /**
   * `approximateExtraDistance(a, b)`: the cheaper of the two ways of visiting
   * `b`'s endpoints on the way through `a`, minus `a`'s straight-line length,
   * floored at 0 and scaled by `a`'s road-to-straight-line ratio.
   */
  function ApproxExtraDistance(dist: (Point, Point) -> real, a: Trip, b: Trip): (r: real)
    ensures NonNegativeTotal(a) ==> r >= 0.0
  {
    var proxyCombined := Min(PickupFirstLegs(dist, a, b), DropFirstLegs(dist, a, b));
    var aLenProxy := dist(a.pickup, a.drop);
    var extra := Max(0.0, proxyCombined - aLenProxy);
    var scale := DetourScale(a.totalDistanceM, aLenProxy);
    JsNumber.MulNonneg(extra, if scale >= 0.0 then scale else 0.0);
    extra * scale
  }

  /**
   * With a positive scale, the estimate is 0 exactly when neither visiting
   * order is longer than the base's straight line.
   */
  lemma ExtraZeroIffNoDetour(dist: (Point, Point) -> real, a: Trip, b: Trip)
    requires a.totalDistanceM.None? || a.totalDistanceM.value > 0.0
    ensures ApproxExtraDistance(dist, a, b) == 0.0
        <==> Min(PickupFirstLegs(dist, a, b), DropFirstLegs(dist, a, b)) <= dist(a.pickup, a.drop)
  {
    var extra := Max(0.0, Min(PickupFirstLegs(dist, a, b), DropFirstLegs(dist, a, b)) - dist(a.pickup, a.drop));
    var scale := DetourScale(a.totalDistanceM, dist(a.pickup, a.drop));
    if extra > 0.0 {
      JsNumber.ScalePositive(extra, scale);
    }
  }

  /** Swapping the candidate's pickup and drop does not change the estimate. */
  lemma ExtraIgnoresCandidateDirection(dist: (Point, Point) -> real, a: Trip, b: Trip)
    ensures ApproxExtraDistance(dist, a, b) == ApproxExtraDistance(dist, a, b.(pickup := b.drop, drop := b.pickup))
  {
  }

  /** A candidate with the base's own endpoints adds no detour. */
  lemma ExtraOfSameEndpoints(dist: (Point, Point) -> real, a: Trip, b: Trip)
    requires IsDistance(dist) && b.pickup == a.pickup && b.drop == a.drop
    ensures ApproxExtraDistance(dist, a, b) == 0.0
  {
    assert dist(a.pickup, a.pickup) == 0.0 && dist(a.drop, a.drop) == 0.0;
    assert dist(a.drop, a.pickup) == dist(a.pickup, a.drop);
    assert PickupFirstLegs(dist, a, b) == dist(a.pickup, a.drop);
    assert DropFirstLegs(dist, a, b) >= dist(a.pickup, a.drop);
  }

  /** `extra / min(baseLenM, candLenM) * 100`. */
  function DeviationPct(extra: real, baseLenM: real, candLenM: real): (r: real)
    requires baseLenM != 0.0 && candLenM != 0.0
    ensures extra >= 0.0 && baseLenM > 0.0 && candLenM > 0.0 ==> r >= 0.0
    ensures extra == 0.0 ==> r == 0.0
  {
    QuotientSign(extra, Min(baseLenM, candLenM));
    extra / Min(baseLenM, candLenM) * 100.0
  }

  lemma QuotientSign(x: real, m: real)
    requires m != 0.0
    ensures x >= 0.0 && m > 0.0 ==> x / m >= 0.0
  {
    if m > 0.0 {
      JsNumber.QuotientBounds(x, m);
    }
  }

  // ---------------------------------------------------------------------
  // Scoring

  /** `Math.max(0, 100 - deviationPct * 6)`. */
  function ScoreDeviation(deviationPct: real): (r: real)
    ensures r >= 0.0
    ensures deviationPct >= 0.0 ==> r <= 100.0
    ensures r == 0.0 <==> deviationPct * 6.0 >= 100.0
  {
    Max(0.0, 100.0 - deviationPct * 6.0)
  }

  /** `Math.max(0, (30 - deltaMin) * 1.0)`. */
  function ScoreTime(deltaMin: real): (r: real)
    ensures r >= 0.0
    ensures deltaMin >= 0.0 ==> r <= TimeWindowMin
    ensures deltaMin <= TimeWindowMin ==> r == TimeWindowMin - deltaMin
  {
    Max(0.0, (TimeWindowMin - deltaMin) * 1.0)
  }

  /** `Math.round(overlap * 0.6 + scoreDeviation + scoreTime)`. */
  function MatchScore(overlap: real, deviationPct: real, deltaMin: real): (r: int)
    ensures 0.0 <= overlap <= 100.0 && deviationPct >= 0.0 && deltaMin >= 0.0 ==> 0 <= r <= 190
  {
    var total := overlap * 0.6 + ScoreDeviation(deviationPct) + ScoreTime(deltaMin);
    JsNumber.Round(total)
  }

  /** The record pushed for an accepted candidate. */
  function MakeResult(id: string, overlap: real, extra: real, deviationPct: real, deltaMin: real): (m: MatchResult)
    ensures m.matchedTripId == id
    ensures overlap - 0.005 <= m.overlapPercentage <= overlap + 0.005
    ensures deviationPct - 0.005 <= m.deviationPercentage <= deviationPct + 0.005
    ensures extra - 0.5 < m.additionalDistanceM as real <= extra + 0.5
    ensures extra / 12.0 - 0.5 < m.additionalTimeS as real <= extra / 12.0 + 0.5
    ensures deltaMin - 0.5 < m.timeDeltaMinutes as real <= deltaMin + 0.5
    ensures 0.0 <= overlap <= 100.0 && deviationPct >= 0.0 && deltaMin >= 0.0 ==> 0 <= m.matchScore <= 190
  {
    MatchResult(
      matchedTripId := id,
      overlapPercentage := JsNumber.ToFixed2(overlap),
      additionalDistanceM := JsNumber.Round(extra),
      additionalTimeS := JsNumber.Round(extra / 12.0),
      deviationPercentage := JsNumber.ToFixed2(deviationPct),
      timeDeltaMinutes := JsNumber.Round(deltaMin),
      matchScore := MatchScore(overlap, deviationPct, deltaMin))
  }

  // ---------------------------------------------------------------------
  // One candidate

  /** What happens to one candidate: the filter that rejects it, or its record. */
  datatype Verdict =
    | SelfMatch
    | TooFarInTime(deltaMin: real)
    | TooLittleOverlap(overlap: real)
    | TooMuchDeviation(deviationPct: real)
    | Accepted(result: MatchResult)

  /** The body of the per-candidate loop, filter by filter. */
  function Evaluate(dist: (Point, Point) -> real, base: Trip, c: Trip): (v: Verdict)
    ensures v.Accepted? ==> v.result.matchedTripId == c.id && c.id != base.id
    ensures v.Accepted? ==> 0 <= v.result.timeDeltaMinutes <= 30
    ensures v.Accepted? ==> MinOverlapPct <= v.result.overlapPercentage <= 100.0
    ensures v.Accepted? ==> v.result.deviationPercentage <= MaxDeviationPct
    ensures v.Accepted? ==> 19 <= v.result.matchScore
    ensures v.Accepted? && IsDistance(dist) && NonNegativeTotal(base) && NonNegativeTotal(c) ==>
      v.result.matchScore <= 190
  {
    if c.id == base.id then SelfMatch
    else
      var deltaMin := DeltaMinutes(base.departureMs, c.departureMs);
      if deltaMin > TimeWindowMin then TooFarInTime(deltaMin)
      else
        var overlap := OverlapPercent(dist, base.route, c.route, DefaultToleranceM);
        if overlap < MinOverlapPct then TooLittleOverlap(overlap)
        else
          var extra := ApproxExtraDistance(dist, base, c);
          var deviationPct := DeviationPct(extra, RouteLength(dist, base), RouteLength(dist, c));
          if deviationPct > MaxDeviationPct then TooMuchDeviation(deviationPct)
          else
            AcceptedFacts(c.id, overlap, extra, deviationPct, deltaMin);
            Accepted(MakeResult(c.id, overlap, extra, deviationPct, deltaMin))
  }

  /** The display roundings keep each survivor's values inside the filter bounds. */
  lemma AcceptedFacts(id: string, overlap: real, extra: real, deviationPct: real, deltaMin: real)
    requires 0.0 <= deltaMin <= TimeWindowMin
    requires MinOverlapPct <= overlap <= 100.0
    requires deviationPct <= MaxDeviationPct
    ensures var m := MakeResult(id, overlap, extra, deviationPct, deltaMin);
      && 0 <= m.timeDeltaMinutes <= 30
      && MinOverlapPct <= m.overlapPercentage <= 100.0
      && m.deviationPercentage <= MaxDeviationPct
      && 19 <= m.matchScore
      && (deviationPct >= 0.0 ==> m.matchScore <= 190)
  {
    JsNumber.ToFixed2Monotone(MinOverlapPct, overlap);
    JsNumber.ToFixed2Monotone(overlap, 100.0);
    JsNumber.ToFixed2Monotone(deviationPct, MaxDeviationPct);
    JsNumber.RoundMonotone(deltaMin, TimeWindowMin);
    var total := overlap * 0.6 + ScoreDeviation(deviationPct) + ScoreTime(deltaMin);
    JsNumber.RoundMonotone(19.0, total);
  }

  /**
   * A candidate is accepted exactly when it is not the base, departs within
   * 30 minutes, overlaps by at least 15 % and deviates by at most 15 %.
   */
  lemma AcceptedIff(dist: (Point, Point) -> real, base: Trip, c: Trip)
    ensures Evaluate(dist, base, c).Accepted? <==>
      && c.id != base.id
      && DeltaMinutes(base.departureMs, c.departureMs) <= TimeWindowMin
      && OverlapPercent(dist, base.route, c.route, DefaultToleranceM) >= MinOverlapPct
      && DeviationPct(ApproxExtraDistance(dist, base, c), RouteLength(dist, base), RouteLength(dist, c)) <= MaxDeviationPct
  {
  }

  /**
   * The departure window is inclusive: a candidate other than the base is
   * turned away for time exactly when it departs more than 30 minutes
   * (1 800 000 ms) before or after the base.
   */
  lemma TimeWindowInclusive(dist: (Point, Point) -> real, base: Trip, c: Trip)
    requires c.id != base.id
    ensures Evaluate(dist, base, c).TooFarInTime? <==>
      (c.departureMs - base.departureMs > 1800000 || base.departureMs - c.departureMs > 1800000)
  {
  }

  /**
   * A candidate with the base's route and endpoints, departing ten minutes
   * after it, is accepted with overlap 100, no detour and score
   * 60 + 100 + 20 = 180.
   */
  lemma SameRouteTenMinutesLater(dist: (Point, Point) -> real, base: Trip, c: Trip)
    requires IsDistance(dist)
    requires base.route != [] && c.route == base.route
    requires c.pickup == base.pickup && c.drop == base.drop
    requires c.id != base.id && c.departureMs == base.departureMs + 600000
    ensures Evaluate(dist, base, c) == Accepted(MatchResult(c.id, 100.0, 0, 0, 0.0, 10, 180))
  {
    OverlapWithItself(dist, base.route, DefaultToleranceM);
    ExtraOfSameEndpoints(dist, base, c);
    assert DeltaMinutes(base.departureMs, c.departureMs) == 10.0;
    assert JsNumber.ToFixed2(100.0) == 100.0;
    assert JsNumber.ToFixed2(0.0) == 0.0;
    assert JsNumber.Round(10.0) == 10;
    assert JsNumber.Round(0.0) == 0;
    assert MatchScore(100.0, 0.0, 10.0) == JsNumber.Round(180.0) == 180;
  }

  /**
   * A candidate departing 25 minutes after the base and overlapping it by at
   * most 20 % scores at most 12 + 100 + 5 = 117 when accepted, so the
   * 180-point record of `SameRouteTenMinutesLater` ranks before it.
   */
  lemma SameRouteRanksBeforeLateLowOverlap(dist: (Point, Point) -> real, base: Trip, a: Trip, b: Trip)
    requires IsDistance(dist) && NonNegativeTotal(base) && NonNegativeTotal(b)
    requires base.route != [] && a.route == base.route
    requires a.pickup == base.pickup && a.drop == base.drop
    requires a.id != base.id && a.departureMs == base.departureMs + 600000
    requires OverlapPercent(dist, base.route, b.route, DefaultToleranceM) <= 20.0
    requires b.departureMs == base.departureMs + 1500000
    ensures Evaluate(dist, base, a).Accepted?
    ensures Evaluate(dist, base, b).Accepted? ==>
      && Evaluate(dist, base, b).result.matchScore <= 117
      && Before(Evaluate(dist, base, a).result, Evaluate(dist, base, b).result)
  {
    SameRouteTenMinutesLater(dist, base, a);
    var v := Evaluate(dist, base, b);
    if v.Accepted? {
      var overlap := OverlapPercent(dist, base.route, b.route, DefaultToleranceM);
      var extra := ApproxExtraDistance(dist, base, b);
      var deviationPct := DeviationPct(extra, RouteLength(dist, base), RouteLength(dist, b));
      assert DeltaMinutes(base.departureMs, b.departureMs) == 25.0;
      LateLowOverlapScore(a.id, b.id, overlap, extra, deviationPct);
    }
  }

  /**
   * The record of a candidate with overlap at most 20 %, a non-negative
   * deviation and 25 minutes' difference scores at most 117, below the
   * 180-point record of a same-route candidate.
   */
  lemma LateLowOverlapScore(aId: string, id: string, overlap: real, extra: real, deviationPct: real)
    requires overlap <= 20.0 && deviationPct >= 0.0
    ensures MakeResult(id, overlap, extra, deviationPct, 25.0).matchScore <= 117
    ensures Before(MatchResult(aId, 100.0, 0, 0, 0.0, 10, 180), MakeResult(id, overlap, extra, deviationPct, 25.0))
  {
    var total := overlap * 0.6 + ScoreDeviation(deviationPct) + ScoreTime(25.0);
    assert total <= 117.0;
    JsNumber.RoundMonotone(total, 117.0);
  }

  // ---------------------------------------------------------------------
  // All candidates

  /** The records the loop pushes, in candidate order. */
  function Survivors(dist: (Point, Point) -> real, base: Trip, candidates: seq<Trip>): (r: seq<MatchResult>)
    ensures |r| <= |candidates|
    decreases |candidates|
  {
    if candidates == [] then []
    else
      Survivors(dist, base, candidates[..|candidates| - 1])
      + Pushed(Evaluate(dist, base, candidates[|candidates| - 1]))
  }

  /** What one pass of the loop appends to `results`. */
  function Pushed(v: Verdict): seq<MatchResult> {
    if v.Accepted? then [v.result] else []
  }

  lemma SurvivorsStep(dist: (Point, Point) -> real, base: Trip, candidates: seq<Trip>, k: nat)
    requires k < |candidates|
    ensures Survivors(dist, base, candidates[..k + 1])
      == Survivors(dist, base, candidates[..k]) + Pushed(Evaluate(dist, base, candidates[k]))
  {
    assert candidates[..k + 1][..k] == candidates[..k];
  }

  /** Every record comes from an accepted candidate. */
  lemma {:induction false} SurvivorsSound(dist: (Point, Point) -> real, base: Trip, candidates: seq<Trip>, k: nat)
    requires k < |Survivors(dist, base, candidates)|
    ensures exists i :: 0 <= i < |candidates| && Evaluate(dist, base, candidates[i]) == Accepted(Survivors(dist, base, candidates)[k])
    decreases |candidates|
  {
    var n := |candidates|;
    var front := candidates[..n - 1];
    var earlier := Survivors(dist, base, front);
    var v := Evaluate(dist, base, candidates[n - 1]);
    var all := Survivors(dist, base, candidates);
    assert all == earlier + Pushed(v);
    if k < |earlier| {
      SurvivorsSound(dist, base, front, k);
      var i :| 0 <= i < |front| && Evaluate(dist, base, front[i]) == Accepted(earlier[k]);
      assert candidates[i] == front[i];
      assert all[k] == earlier[k];
    } else {
      assert v.Accepted? && all[k] == v.result;
    }
  }

  /** Every accepted candidate has its record among the survivors. */
  lemma {:induction false} SurvivorsComplete(dist: (Point, Point) -> real, base: Trip, candidates: seq<Trip>, i: nat)
    requires i < |candidates| && Evaluate(dist, base, candidates[i]).Accepted?
    ensures Evaluate(dist, base, candidates[i]).result in Survivors(dist, base, candidates)
    decreases |candidates|
  {
    var n := |candidates|;
    var front := candidates[..n - 1];
    var earlier := Survivors(dist, base, front);
    var v := Evaluate(dist, base, candidates[n - 1]);
    assert Survivors(dist, base, candidates) == earlier + Pushed(v);
    if i < n - 1 {
      assert front[i] == candidates[i];
      SurvivorsComplete(dist, base, front, i);
    } else {
      assert Pushed(v) == [v.result];
    }
  }

  /** Facts about every surviving record, gathered for the final result. */
  lemma SurvivorFacts(dist: (Point, Point) -> real, base: Trip, candidates: seq<Trip>, r: MatchResult)
    requires r in Survivors(dist, base, candidates)
    ensures r.matchedTripId != base.id
    ensures exists c :: c in candidates && c.id == r.matchedTripId
    ensures 0 <= r.timeDeltaMinutes <= 30
    ensures MinOverlapPct <= r.overlapPercentage <= 100.0
    ensures r.deviationPercentage <= MaxDeviationPct
  {
    var s := Survivors(dist, base, candidates);
    var k :| 0 <= k < |s| && s[k] == r;
    SurvivorsSound(dist, base, candidates, k);
    var i :| 0 <= i < |candidates| && Evaluate(dist, base, candidates[i]) == Accepted(r);
    assert candidates[i] in candidates;
  }

  /**
   * `findMatchesForTrip(base, candidates)`: the per-candidate loop with its
   * early `continue`s, then the in-place sort.
   */
  method FindMatchesForTrip(dist: (Point, Point) -> real, base: Trip, candidates: seq<Trip>) returns (ranked: seq<MatchResult>)
    ensures ranked == RankSort(Survivors(dist, base, candidates))
    ensures Ranked(ranked)
    ensures multiset(ranked) == multiset(Survivors(dist, base, candidates))
    ensures |ranked| <= |candidates|
    ensures forall r :: r in ranked ==>
      && r.matchedTripId != base.id
      && (exists c :: c in candidates && c.id == r.matchedTripId)
      && 0 <= r.timeDeltaMinutes <= 30
      && MinOverlapPct <= r.overlapPercentage <= 100.0
      && r.deviationPercentage <= MaxDeviationPct
  {
    var basePts := base.route;
    var basePathLen := PathLengthM(dist, basePts);
    var baseLenM := LengthOrFallback(basePathLen, base.totalDistanceM);
    var baseDepart := base.departureMs;

    var results: seq<MatchResult> := [];
    for k := 0 to |candidates|
      invariant results == Survivors(dist, base, candidates[..k])
    {
      var c := candidates[k];
      SurvivorsStep(dist, base, candidates, k);
      if c.id == base.id {
        assert Evaluate(dist, base, c) == SelfMatch;
        assert results == Survivors(dist, base, candidates[..k + 1]);
        continue;
      }
      var deltaMin := DeltaMinutes(baseDepart, c.departureMs);
      if deltaMin > TimeWindowMin {
        assert Evaluate(dist, base, c) == TooFarInTime(deltaMin);
        assert results == Survivors(dist, base, candidates[..k + 1]);
        continue;
      }
      var candPts := c.route;
      var candPathLen := PathLengthM(dist, candPts);
      var candLenM := LengthOrFallback(candPathLen, c.totalDistanceM);
      var overlap := OverlapPercent(dist, basePts, candPts, DefaultToleranceM);
      if overlap < MinOverlapPct {
        assert Evaluate(dist, base, c) == TooLittleOverlap(overlap);
        assert results == Survivors(dist, base, candidates[..k + 1]);
        continue;
      }
      var approxExtraM := ApproxExtraDistance(dist, base, c);
      var deviationPct := DeviationPct(approxExtraM, baseLenM, candLenM);
      if deviationPct > MaxDeviationPct {
        assert Evaluate(dist, base, c) == TooMuchDeviation(deviationPct);
        assert results == Survivors(dist, base, candidates[..k + 1]);
        continue;
      }
      var record := MakeResult(c.id, overlap, approxExtraM, deviationPct, deltaMin);
      assert Evaluate(dist, base, c) == Accepted(record);
      results := results + [record];
    }
    assert candidates[..|candidates|] == candidates;

    var survivors := results;
    var arr := new MatchResult[|survivors|](i requires 0 <= i < |survivors| => survivors[i]);
    assert arr[..] == survivors;
    SortResults(arr);
    ranked := arr[..];

    RankSortRanked(survivors);
    forall r | r in ranked
      ensures r in survivors
    {
      assert r in multiset(ranked);
    }
    forall r | r in ranked
      ensures r.matchedTripId != base.id
      ensures exists c :: c in candidates && c.id == r.matchedTripId
      ensures 0 <= r.timeDeltaMinutes <= 30
      ensures MinOverlapPct <= r.overlapPercentage <= 100.0
      ensures r.deviationPercentage <= MaxDeviationPct
    {
      SurvivorFacts(dist, base, candidates, r);
    }
  }
}
