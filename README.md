# Lunar eclipse optimal viewing time — verified model

A Dafny model of the two algorithms of `eclipse_calculator.py`:

- **Time search** (`time_search.dfy`, module `TimeSearch`): the per-second scan
  of one local day for the instant of smallest Sun–Moon angular separation.
  Time is an integer count of seconds since local midnight; the ephemeris is a
  function `sep: int -> real` of the UTC second, and each local second is
  shifted to UTC by the offset before it is queried. The best separation
  starts at the sentinel 10^18 and the best time at "no time" (`None`, the
  source's empty string); both change only on a strictly smaller separation,
  so the earliest minimiser wins.
- **Overlap estimator** (`overlap.dfy`, module `OverlapEstimator`): the Monte
  Carlo estimate of how much of the Sun's disc the Moon covers. The Moon sits
  at `[0, 0]`, the Sun at `[0, sep]`; lattice points are drawn from
  `[-gridSize, gridSize]²`, tallied as "in both" or "in the Sun only", and the
  estimate is `1 - inSunOnly / (inBoth + inSunOnly)`. The random draw is a
  nondeterministic choice within the grid; `MonteCarlo` returns the points it
  drew, so its tallies are tied to counting functions over them.
- **The whole calculation** (`eclipse.dfy`, module `EclipseCalculator`): scan,
  timezone-label lookup, recomputation of the apparent sizes at the best
  instant, and the coverage estimate when samples are requested, with the
  source's failure points as `Err` results (`outcomes.dfy`).

Behaviour reproduced as written, where it differs from what one might intend:

- The loop stops when the cursor reaches 23:59:59, before querying it: the
  scan examines seconds 0..86398, 86399 queries, not 86400.
  `LastSecondScenario` shows a day whose only minimum is at 23:59:59 reported
  at 00:00:00.
- An empty tally (no draw inside the Sun, or no draws at all) is a division by
  zero in the source; here it is `Err(ZeroDivision)`.
- An offset outside -12..12 fails at the timezone-name lookup, after the whole
  scan has run; here `Err(UnknownOffset)`.
- Negative radii or a negative separation are not rejected: a disc with a
  negative radius simply contains no point, and a negative grid makes the
  first draw fail (`Err(EmptyRange)`).

## Model

| member | source | states |
|---|---|---|
| `TimeSearch.ToUtc` | eclipse_calculator.py:104-107 | both branches of the shift (subtract the offset's magnitude when non-negative, add it when negative) equal `local - utcOffset * 3600` for every offset; offset 0 leaves the instant unchanged, a positive offset moves it earlier, a negative one later |
| `TimeSearch.FindBestTime` | eclipse_calculator.py:98-124 | the queried seconds are exactly 0..86398 in order (23:59:59 is never queried); the result is at most the sentinel and at most the separation at every queried second; "no time" exactly when no queried separation is below the sentinel, and then the distance is the sentinel; otherwise the time is a queried second whose separation equals the result, and every earlier second has a strictly larger separation (earliest minimiser) |
| `TimeSearch.ShiftedNoonScenario` | eclipse_calculator.py:101-124 | with the local clock two hours ahead of UTC and a separation `|utc - 43200|`, the best local time is 14:00:00 with separation 0 |
| `TimeSearch.LastSecondScenario` | eclipse_calculator.py:117-124 | a day whose only smallest separation falls on 23:59:59 reports 00:00:00 with the tied value 1: the last second is skipped and ties go to the earliest second |
| `OverlapEstimator.WithinIffDistance` | eclipse_calculator.py:39-46 | for the Euclidean distance `d` of the point from the centre, the squared-distance test holds exactly when `d <= radius`, so a point at distance exactly `radius` is inside and a negative radius contains nothing |
| `OverlapEstimator.SamplePoint` | eclipse_calculator.py:49-52 | a draw succeeds exactly when `gridSize >= 0` (otherwise the range is empty) and then lies in `[-gridSize, gridSize]²`, both ends included |
| `OverlapEstimator.TalliesPartitionSun` | eclipse_calculator.py:64-78 | "in both" and "in the Sun only" split the samples inside the Sun with no sample counted twice, so their sum is the number of samples in the Sun and at most the number of samples |
| `OverlapEstimator.DisjointDiscsNoOverlap` | eclipse_calculator.py:56-78 | when the centres are farther apart than the sum of the radii (in either direction along the axis), no sample is ever counted "in both" |
| `OverlapEstimator.CoveredSunNoSunOnly` | eclipse_calculator.py:56-78 | when the Moon's radius is at least the Sun's radius plus the distance of the centres, no sample is ever counted "in the Sun only" |
| `OverlapEstimator.Coverage` | eclipse_calculator.py:80 | the estimate exists exactly when some sample hit the Sun (otherwise a division by zero); it equals `inBoth / (inBoth + inSunOnly)`, lies in [0, 1], is 1 exactly when no sample was Sun-only and 0 exactly when none was in both |
| `OverlapEstimator.MonteCarlo` | eclipse_calculator.py:56-80 | a negative grid with at least one draw fails with an empty range; otherwise `max(n, 0)` points are drawn, all in the grid, the tallies are the counts of "in both" and "in the Sun only" among them (their sum at most the number of draws), and the result is `Coverage` of the tallies |
| `OverlapEstimator.ConcentricScenario` | eclipse_calculator.py:56-80 | two equal discs of radius 1000 on one centre give an estimate of exactly 1 whenever it is defined |
| `OverlapEstimator.DisjointScenario` | eclipse_calculator.py:56-80 | a Moon of radius 500 and a Sun of radius 1000 with centres 3000 apart give an estimate of exactly 0 whenever it is defined |
| `OverlapEstimator.Truncate` | eclipse_calculator.py:161 | `int()` on a real truncates toward zero: a non-negative value is bracketed by the result and the result plus one, a negative one by the result minus one and the result |
| `OverlapEstimator.GridSize` | eclipse_calculator.py:160-161 | with non-negative radii and separation and radii summing to at least 1, the grid half-width is at least `sep + sunRadius + moonRadius` |
| `OverlapEstimator.DiscsInsideGrid` | eclipse_calculator.py:160-161 | with non-negative radii and separation, every lattice point of either disc lies in the sampling square |
| `EclipseCalculator.CalculateOptimalView` | eclipse_calculator.py:91-165 | the scan's result is the earliest minimiser over seconds 0..86398, or none exactly when no separation is below the sentinel; each failure holds exactly when it occurs: unknown offset for an offset outside -12..12, no best time for a known offset with no best second, an empty range when samples are requested and the grid is negative, a division by zero when all requested samples were drawn and none hit the Sun; on success the report carries the scan's time and separation and the ephemeris sizes at that time shifted to UTC, and a coverage exactly when samples were requested, which is then `Coverage` of the tallies of the drawn samples against a Moon of radius `moonSize/2` at the origin and a Sun of radius `sunSize/2` at `bestDist * 3600` arcseconds, every sample in the `GridSize` square of those discs, and lies in [0, 1]; with non-negative ephemeris values the empty-range failure cannot occur |

## Left out

- The ephemeris library (observer set-up, `compute`, `separation`, `size`) is
  replaced by functions of the UTC second: the separation in degrees (the
  `math.degrees` conversion of the library's radians is folded into it) and
  the apparent diameters in arcseconds. Latitude, longitude and the calendar
  date only select these functions, so they are not parameters. Folding the
  conversion in also moves the comparison with the 10^18 starting value from
  radians to degrees: "no best time" here means every separation is at least
  10^18 degrees, in the source at least 10^18 radians; a real separation lies
  in [0, π] and reaches neither. A failure of
  the library for an unsupported date is not modelled.
- `datetime` arithmetic and the string comparison of the loop condition are
  replaced by integer seconds since local midnight; the end of the day is the
  fixed second 86399.
- `random.randint`'s distribution: draws are an unconstrained choice inside
  the grid, so convergence of the estimate, its expected value and its
  monotonicity in the separation are not stated.
- Floating point: reals replace floats, and `math.sqrt` is replaced by the
  squared-distance comparison, related to the distance by `WithinIffDistance`.
- The `'%.12f'` formatting, every `print`, `main` and its `argparse` handling.
- The default of 10,000,000 samples for `monteCarloSamples`: Dafny has no
  default arguments, so `CalculateOptimalView` always takes the count.
- The timezone-name strings: only the table's key range -12..12 is modelled,
  as the condition under which the lookup succeeds.
