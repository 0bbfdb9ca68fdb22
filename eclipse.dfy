/** The whole calculation for one observer and date: the per-second search,
    the timezone-label lookup, the recomputation of the apparent sizes at the
    best instant, and (when samples are requested) the coverage estimate. */
module EclipseCalculator {
  import opened Outcomes
  import TimeSearch
  import OverlapEstimator

  /** The timezone-name table has an entry for each whole-hour offset from -12 to 12. */
  predicate HasTimezoneLabel(utcOffset: int) { -12 <= utcOffset <= 12 }

  /** What the calculation reports: the best local second, the separation there
      (degrees), the apparent diameters of the Sun and the Moon (arcseconds) at
      that instant, and the coverage estimate when one was asked for. */
  datatype ViewReport = ViewReport(
    bestTime: int,
    bestDistDegrees: real,
    sunSize: real,
    moonSize: real,
    coverage: Option<real>)

  /** The discs handed to the estimator for a best local second: the
      separation converted from degrees to arcseconds, and half the apparent
      diameters the ephemeris gives at that second shifted to UTC. */
  function DiscsAt(sunSize: int -> real, moonSize: int -> real, utcOffset: int,
                   bestTime: int, bestDist: real): OverlapEstimator.Discs
  {
    var utc := TimeSearch.ToUtc(bestTime, utcOffset);
    OverlapEstimator.Discs(bestDist * 3600.0, moonSize(utc) / 2.0, sunSize(utc) / 2.0)
  }

  /** The half-width of the sampling square for those discs. */
  function GridFor(d: OverlapEstimator.Discs): int {
    OverlapEstimator.GridSize(d.sunRadius, d.sep, d.moonRadius)
  }

  /** calculate_optimal_view with the ephemeris as three functions of the UTC
      second: `sep` (degrees), `sunSize` and `moonSize` (arcseconds).
      `bestDist` and `bestTime` are the scan's result and `samples` the points
      drawn for the estimate (none when no estimate is made). */
  method CalculateOptimalView(sep: int -> real, sunSize: int -> real, moonSize: int -> real,
                              utcOffset: int, monteCarloSamples: int)
    returns (r: Result<ViewReport>, bestDist: real, bestTime: Option<int>,
             samples: seq<OverlapEstimator.Point>)
    // the scan
    ensures bestTime.None? <==>
              forall t :: TimeSearch.FirstSecond <= t < TimeSearch.LastSecond ==>
                TimeSearch.Sentinel <= TimeSearch.SeparationAt(sep, utcOffset, t)
    ensures bestTime.Some? ==>
              TimeSearch.FirstSecond <= bestTime.value < TimeSearch.LastSecond &&
              bestDist == TimeSearch.SeparationAt(sep, utcOffset, bestTime.value) &&
              (forall t :: TimeSearch.FirstSecond <= t < TimeSearch.LastSecond ==>
                 bestDist <= TimeSearch.SeparationAt(sep, utcOffset, t)) &&
              (forall t :: TimeSearch.FirstSecond <= t < bestTime.value ==>
                 bestDist < TimeSearch.SeparationAt(sep, utcOffset, t))
    // the failures, each exactly when it occurs
    ensures r == Err(UnknownOffset) <==> !HasTimezoneLabel(utcOffset)
    ensures r == Err(NoBestTime) <==> HasTimezoneLabel(utcOffset) && bestTime.None?
    ensures r == Err(EmptyRange) <==>
              HasTimezoneLabel(utcOffset) && bestTime.Some? && 0 < monteCarloSamples &&
              GridFor(DiscsAt(sunSize, moonSize, utcOffset, bestTime.value, bestDist)) < 0
    ensures r == Err(ZeroDivision) <==>
              HasTimezoneLabel(utcOffset) && bestTime.Some? && 0 < monteCarloSamples &&
              |samples| == monteCarloSamples &&
              var discs := DiscsAt(sunSize, moonSize, utcOffset, bestTime.value, bestDist);
              OverlapEstimator.CountBoth(discs, samples) + OverlapEstimator.CountSunOnly(discs, samples) == 0
    // the report
    ensures r.Ok? ==>
              bestTime == Some(r.value.bestTime) && r.value.bestDistDegrees == bestDist &&
              r.value.sunSize == sunSize(TimeSearch.ToUtc(r.value.bestTime, utcOffset)) &&
              r.value.moonSize == moonSize(TimeSearch.ToUtc(r.value.bestTime, utcOffset))
    ensures r.Ok? ==> (r.value.coverage.Some? <==> 0 < monteCarloSamples)
    ensures r.Ok? && r.value.coverage.None? ==> samples == []
    ensures r.Ok? && r.value.coverage.Some? ==>
              var discs := DiscsAt(sunSize, moonSize, utcOffset, r.value.bestTime, bestDist);
              |samples| == monteCarloSamples &&
              (forall k :: 0 <= k < |samples| ==> OverlapEstimator.InGrid(samples[k], GridFor(discs))) &&
              Ok(r.value.coverage.value) ==
                OverlapEstimator.Coverage(OverlapEstimator.CountBoth(discs, samples),
                                          OverlapEstimator.CountSunOnly(discs, samples))
    ensures r.Ok? && r.value.coverage.Some? ==> 0.0 <= r.value.coverage.value <= 1.0
    ensures (forall u :: 0.0 <= sep(u) && 0.0 <= sunSize(u) && 0.0 <= moonSize(u)) ==>
              r != Err(EmptyRange)
  {
    var examined;
    bestDist, bestTime, examined := TimeSearch.FindBestTime(sep, utcOffset);
    samples := [];
    if !HasTimezoneLabel(utcOffset) {
      return Err(UnknownOffset), bestDist, bestTime, samples;
    }
    if bestTime.None? {
      // the best time is still the empty string, which cannot be shifted to UTC
      return Err(NoBestTime), bestDist, bestTime, samples;
    }
    var utc := TimeSearch.ToUtc(bestTime.value, utcOffset);
    var sunDiameter, moonDiameter := sunSize(utc), moonSize(utc);
    var coverage: Option<real> := None;
    if 0 < monteCarloSamples {
      var distArcseconds := bestDist * 3600.0;
      var sunRadius, moonRadius := sunDiameter / 2.0, moonDiameter / 2.0;
      var gridSize := OverlapEstimator.GridSize(sunRadius, distArcseconds, moonRadius);
      var estimate, inBoth, inSunOnly;
      estimate, samples, inBoth, inSunOnly :=
        OverlapEstimator.MonteCarlo(gridSize, distArcseconds, moonRadius, sunRadius, monteCarloSamples);
      if estimate.Err? {
        return Err(estimate.error), bestDist, bestTime, samples;
      }
      coverage := Some(estimate.value);
    }
    r := Ok(ViewReport(bestTime.value, bestDist, sunDiameter, moonDiameter, coverage));
  }
}
