/** Monte Carlo estimate of the fraction of the Sun's disc covered by the Moon's
    disc: the Moon is centred at the origin, the Sun at distance `sep` along the
    second axis, and lattice points drawn from a square grid are tallied. */
module OverlapEstimator {
  import opened Outcomes

  datatype Point = Point(x: int, y: int)

  /** The two discs of one estimate, all lengths in arcseconds. */
  datatype Discs = Discs(sep: real, moonRadius: real, sunRadius: real) {
    /** Inside the Moon, centred at [0, 0]. */
    predicate InMoon(p: Point) { IsWithin(p, 0.0, 0.0, moonRadius) }
    /** Inside the Sun, centred at [0, sep]. */
    predicate InSun(p: Point) { IsWithin(p, 0.0, sep, sunRadius) }
  }

  function SquaredDistance(p: Point, cx: real, cy: real): real {
    (cy - p.y as real) * (cy - p.y as real) + (cx - p.x as real) * (cx - p.x as real)
  }

  /** The point lies no farther than `radius` from the centre, the boundary
      included. The distance is never negative, so a negative radius contains
      no point; otherwise comparing squares replaces the square root. */
  predicate IsWithin(p: Point, cx: real, cy: real, radius: real) {
    0.0 <= radius && SquaredDistance(p, cx, cy) <= radius * radius
  }

  lemma SquaresOrdered(a: real, b: real)
    requires 0.0 <= a && 0.0 <= b
    ensures a <= b <==> a * a <= b * b
  {
    if a <= b {
      assert 0.0 <= (b - a) * a == a * b - a * a;
      assert 0.0 <= (b - a) * b == b * b - a * b;
    } else {
      assert 0.0 <= (a - b) * b == a * b - b * b;
      assert 0.0 < (a - b) * a == a * a - a * b;
    }
  }

  /** A square bounded by b * b pins the number itself between -b and b. */
  lemma BoundFromSquare(a: real, b: real)
    requires 0.0 <= b && a * a <= b * b
    ensures -b <= a <= b
  {
    if a < 0.0 {
      SquaresOrdered(-a, b);
      assert (-a) * (-a) == a * a;
    } else {
      SquaresOrdered(a, b);
    }
  }

  /** For the Euclidean distance `d` (the non-negative square root of the
      squared distance), the point is within the disc exactly when d <= radius;
      in particular a point at distance exactly `radius` is inside. */
  lemma WithinIffDistance(p: Point, cx: real, cy: real, radius: real, d: real)
    requires 0.0 <= d && d * d == SquaredDistance(p, cx, cy)
    ensures IsWithin(p, cx, cy, radius) <==> d <= radius
  {
    if 0.0 <= radius {
      SquaresOrdered(d, radius);
    }
  }

  /** The lattice square [-gridSize, gridSize] x [-gridSize, gridSize]. */
  predicate InGrid(p: Point, gridSize: int) {
    -gridSize <= p.x <= gridSize && -gridSize <= p.y <= gridSize
  }

  /** samplePoint: two inclusive random integers in [-gridSize, gridSize]; the
      range is empty, and the draw fails, when gridSize is negative. */
  method SamplePoint(gridSize: int) returns (r: Result<Point>)
    ensures r.Ok? <==> 0 <= gridSize
    ensures r.Err? ==> r.error == EmptyRange
    ensures r.Ok? ==> InGrid(r.value, gridSize)
  {
    if gridSize < 0 {
      return Err(EmptyRange);
    }
    assert -gridSize <= 0 <= gridSize;
    var x :| -gridSize <= x <= gridSize;
    var y :| -gridSize <= y <= gridSize;
    return Ok(Point(x, y));
  }

  /** Samples inside both discs. */
  function CountBoth(d: Discs, samples: seq<Point>): nat {
    if samples == [] then 0
    else
      var last := samples[|samples| - 1];
      CountBoth(d, samples[..|samples| - 1]) + (if d.InMoon(last) && d.InSun(last) then 1 else 0)
  }

  /** Samples inside the Sun but outside the Moon. */
  function CountSunOnly(d: Discs, samples: seq<Point>): nat {
    if samples == [] then 0
    else
      var last := samples[|samples| - 1];
      CountSunOnly(d, samples[..|samples| - 1]) + (if !d.InMoon(last) && d.InSun(last) then 1 else 0)
  }

  /** Samples inside the Sun, whatever the Moon covers. */
  function CountInSun(d: Discs, samples: seq<Point>): nat {
    if samples == [] then 0
    else
      var last := samples[|samples| - 1];
      CountInSun(d, samples[..|samples| - 1]) + (if d.InSun(last) then 1 else 0)
  }

  /** The two tallies split the samples that hit the Sun, and no sample is
      counted twice: points outside both discs and points in the Moon alone
      are counted in neither. */
  lemma {:induction false} TalliesPartitionSun(d: Discs, samples: seq<Point>)
    ensures CountBoth(d, samples) + CountSunOnly(d, samples) == CountInSun(d, samples)
    ensures CountInSun(d, samples) <= |samples|
  {
    if samples != [] {
      TalliesPartitionSun(d, samples[..|samples| - 1]);
    }
  }

  function AbsReal(v: real): real { if v < 0.0 then -v else v }

  /** Discs whose centres are farther apart than the sum of their radii share
      no point; the Sun is taken above the Moon, the mirrored case follows. */
  lemma DisjointPointAbove(d: Discs, p: Point)
    requires d.moonRadius + d.sunRadius < d.sep
    ensures !(d.InMoon(p) && d.InSun(p))
  {
    if d.InMoon(p) && d.InSun(p) {
      var x, y := p.x as real, p.y as real;
      assert SquaredDistance(p, 0.0, 0.0) == y * y + x * x;
      assert SquaredDistance(p, 0.0, d.sep) == (d.sep - y) * (d.sep - y) + x * x;
      assert 0.0 <= x * x;
      assert y * y <= d.moonRadius * d.moonRadius;
      BoundFromSquare(y, d.moonRadius);
      assert (d.sep - y) * (d.sep - y) <= d.sunRadius * d.sunRadius;
      BoundFromSquare(d.sep - y, d.sunRadius);
      assert false;
    }
  }

  lemma DisjointPoint(d: Discs, p: Point)
    requires d.moonRadius + d.sunRadius < AbsReal(d.sep)
    ensures !(d.InMoon(p) && d.InSun(p))
  {
    if d.sep < 0.0 {
      var q := Point(p.x, -p.y);
      var e := Discs(-d.sep, d.moonRadius, d.sunRadius);
      DisjointPointAbove(e, q);
      assert SquaredDistance(q, 0.0, 0.0) == SquaredDistance(p, 0.0, 0.0);
      assert SquaredDistance(q, 0.0, -d.sep) == SquaredDistance(p, 0.0, d.sep);
    } else {
      DisjointPointAbove(d, p);
    }
  }

  lemma {:induction false} DisjointDiscsNoOverlap(d: Discs, samples: seq<Point>)
    requires d.moonRadius + d.sunRadius < AbsReal(d.sep)
    ensures CountBoth(d, samples) == 0
  {
    if samples != [] {
      DisjointPoint(d, samples[|samples| - 1]);
      DisjointDiscsNoOverlap(d, samples[..|samples| - 1]);
    }
  }

  /** A Moon at least as large as the Sun's radius plus the distance between
      the centres contains every point of the Sun. */
  lemma CoveredPoint(d: Discs, p: Point)
    requires d.sunRadius + AbsReal(d.sep) <= d.moonRadius
    ensures d.InSun(p) ==> d.InMoon(p)
  {
    if d.InSun(p) {
      var x, y := p.x as real, p.y as real;
      var s, m, c := d.sunRadius, d.moonRadius, d.sep;
      var e := y - c;
      assert SquaredDistance(p, 0.0, c) == (c - y) * (c - y) + x * x;
      assert (c - y) * (c - y) == e * e;
      assert 0.0 <= x * x;
      assert x * x + e * e <= s * s;
      assert e * e <= s * s;
      BoundFromSquare(e, s);
      assert AbsReal(e) <= s;
      assert e * c <= AbsReal(e) * AbsReal(c) by {
        if (e < 0.0) == (c < 0.0) {
          assert e * c == AbsReal(e) * AbsReal(c);
        } else {
          assert e * c <= 0.0;
        }
      }
      assert AbsReal(e) * AbsReal(c) <= s * AbsReal(c);
      assert y * y == e * e + 2.0 * e * c + c * c;
      assert c * c == AbsReal(c) * AbsReal(c);
      assert x * x + y * y <= (s + AbsReal(c)) * (s + AbsReal(c));
      SquaresOrdered(s + AbsReal(c), m);
      assert SquaredDistance(p, 0.0, 0.0) == y * y + x * x;
    }
  }

  lemma {:induction false} CoveredSunNoSunOnly(d: Discs, samples: seq<Point>)
    requires d.sunRadius + AbsReal(d.sep) <= d.moonRadius
    ensures CountSunOnly(d, samples) == 0
  {
    if samples != [] {
      CoveredPoint(d, samples[|samples| - 1]);
      CoveredSunNoSunOnly(d, samples[..|samples| - 1]);
    }
  }

  /** The estimate 1 - inSunOnly / (inBoth + inSunOnly): the share of the
      samples in the Sun that the Moon also covers. */
  function Coverage(inBoth: nat, inSunOnly: nat): (r: Result<real>)
    ensures r.Ok? <==> 0 < inBoth + inSunOnly
    ensures r.Err? ==> r.error == ZeroDivision
    ensures r.Ok? ==> r.value * (inBoth + inSunOnly) as real == inBoth as real
    ensures r.Ok? ==> 0.0 <= r.value <= 1.0
    ensures r.Ok? ==> (r.value == 1.0 <==> inSunOnly == 0)
    ensures r.Ok? ==> (r.value == 0.0 <==> inBoth == 0)
  {
    if inBoth + inSunOnly == 0 then Err(ZeroDivision)
    else Ok(1.0 - inSunOnly as real / (inBoth + inSunOnly) as real)
  }

  /** montecarlo: draw n points (none when n <= 0), tally them against the two
      discs and return the coverage estimate. `samples` are the points drawn. */
  method MonteCarlo(gridSize: int, sep: real, moonRadius: real, sunRadius: real, n: int)
    returns (r: Result<real>, samples: seq<Point>, inBoth: nat, inSunOnly: nat)
    ensures 0 < n && gridSize < 0 ==> r == Err(EmptyRange) && samples == []
    ensures !(0 < n && gridSize < 0) ==>
              |samples| == (if n < 0 then 0 else n) &&
              (forall k :: 0 <= k < |samples| ==> InGrid(samples[k], gridSize)) &&
              inBoth == CountBoth(Discs(sep, moonRadius, sunRadius), samples) &&
              inSunOnly == CountSunOnly(Discs(sep, moonRadius, sunRadius), samples) &&
              r == Coverage(inBoth, inSunOnly)
    ensures inBoth + inSunOnly <= |samples|
  {
    var discs := Discs(sep, moonRadius, sunRadius);
    samples := [];
    inBoth, inSunOnly := 0, 0;
    var i := 0;
    while i < n
      invariant 0 <= i && (0 < n ==> i <= n) && (n <= 0 ==> i == 0)
      invariant gridSize < 0 ==> i == 0
      invariant |samples| == i
      invariant forall k :: 0 <= k < |samples| ==> InGrid(samples[k], gridSize)
      invariant inBoth == CountBoth(discs, samples)
      invariant inSunOnly == CountSunOnly(discs, samples)
    {
      var drawn := SamplePoint(gridSize);
      if drawn.Err? {
        r := Err(drawn.error);
        TalliesPartitionSun(discs, samples);
        return;
      }
      var newPoint := drawn.value;
      var inMoon := discs.InMoon(newPoint);
      var inSun := discs.InSun(newPoint);
      samples := samples + [newPoint];
      assert samples[..|samples| - 1] == samples[..i];
      if !inMoon && !inSun {
        // outside both bodies: ignored
      } else if inMoon && inSun {
        inBoth := inBoth + 1;
      } else if !inMoon && inSun {
        inSunOnly := inSunOnly + 1;
      }
      i := i + 1;
    }
    r := Coverage(inBoth, inSunOnly);
    TalliesPartitionSun(discs, samples);
  }

  /** Python's int() on a float: truncation toward zero. */
  function Truncate(v: real): (i: int)
    ensures 0.0 <= v ==> 0 <= i && i as real <= v < i as real + 1.0
    ensures v < 0.0 ==> i <= 0 && i as real - 1.0 < v <= i as real
  {
    if 0.0 <= v then v.Floor else -((-v).Floor)
  }

  /** The conservative half-width of the sampling square: the Sun's radius plus
      the separation plus the Moon's radius, plus both radii again, truncated. */
  function GridSize(sunRadius: real, sep: real, moonRadius: real): (g: int)
    ensures 0.0 <= sunRadius && 0.0 <= moonRadius && 0.0 <= sep && 1.0 <= sunRadius + moonRadius ==>
              sep + sunRadius + moonRadius <= g as real
  {
    Truncate((sunRadius + sep + moonRadius) + sunRadius + moonRadius)
  }

  /** An integer below a non-negative real bound stays below its truncation. */
  lemma IntBelowTruncate(k: int, v: real)
    requires 0.0 <= v && k as real <= v
    ensures k <= Truncate(v)
  {
  }

  /** A lattice point of the Moon lies within the Moon's radius on both axes. */
  lemma MoonBox(d: Discs, p: Point)
    requires d.InMoon(p)
    ensures -d.moonRadius <= p.x as real <= d.moonRadius
    ensures -d.moonRadius <= p.y as real <= d.moonRadius
  {
    var x, y := p.x as real, p.y as real;
    assert SquaredDistance(p, 0.0, 0.0) == y * y + x * x;
    assert 0.0 <= x * x && 0.0 <= y * y;
    assert x * x <= d.moonRadius * d.moonRadius;
    assert y * y <= d.moonRadius * d.moonRadius;
    BoundFromSquare(x, d.moonRadius);
    BoundFromSquare(y, d.moonRadius);
  }

  /** A lattice point of the Sun lies within the Sun's radius of its centre on both axes. */
  lemma SunBox(d: Discs, p: Point)
    requires d.InSun(p)
    ensures -d.sunRadius <= p.x as real <= d.sunRadius
    ensures -d.sunRadius <= d.sep - p.y as real <= d.sunRadius
  {
    var x, e := p.x as real, d.sep - p.y as real;
    assert SquaredDistance(p, 0.0, d.sep) == e * e + x * x;
    assert 0.0 <= x * x && 0.0 <= e * e;
    assert x * x <= d.sunRadius * d.sunRadius;
    assert e * e <= d.sunRadius * d.sunRadius;
    BoundFromSquare(x, d.sunRadius);
    BoundFromSquare(e, d.sunRadius);
  }

  /** Every lattice point of either disc lies in the sampling square, so no
      point that could change the tallies is out of reach of the draws. */
  lemma DiscsInsideGrid(d: Discs, p: Point)
    requires 0.0 <= d.sep && 0.0 <= d.moonRadius && 0.0 <= d.sunRadius
    requires d.InMoon(p) || d.InSun(p)
    ensures InGrid(p, GridSize(d.sunRadius, d.sep, d.moonRadius))
  {
    var s, m, c := d.sunRadius, d.moonRadius, d.sep;
    var v := (s + c + m) + s + m;
    if d.InMoon(p) {
      MoonBox(d, p);
    } else {
      SunBox(d, p);
    }
    IntBelowTruncate(p.x, v);
    IntBelowTruncate(-p.x, v);
    IntBelowTruncate(p.y, v);
    IntBelowTruncate(-p.y, v);
  }

  /** Two equal discs on the same centre: the estimate is exactly 1 for any
      draws, unless no draw hit the Sun. */
  method ConcentricScenario(n: int) returns (r: Result<real>)
    ensures r.Ok? ==> r.value == 1.0
    ensures r.Err? ==> r.error == ZeroDivision
  {
    var discs := Discs(0.0, 1000.0, 1000.0);
    var gridSize := GridSize(1000.0, 0.0, 1000.0);
    var samples, inBoth, inSunOnly;
    r, samples, inBoth, inSunOnly := MonteCarlo(gridSize, 0.0, 1000.0, 1000.0, n);
    CoveredSunNoSunOnly(discs, samples);
  }

  /** A Moon of radius 500 and a Sun of radius 1000 whose centres are 3000
      apart: the estimate is exactly 0 for any draws, unless no draw hit the Sun. */
  method DisjointScenario(n: int) returns (r: Result<real>)
    ensures r.Ok? ==> r.value == 0.0
    ensures r.Err? ==> r.error == ZeroDivision
  {
    var discs := Discs(3000.0, 500.0, 1000.0);
    var gridSize := GridSize(1000.0, 3000.0, 500.0);
    var samples, inBoth, inSunOnly;
    r, samples, inBoth, inSunOnly := MonteCarlo(gridSize, 3000.0, 500.0, 1000.0, n);
    DisjointDiscsNoOverlap(discs, samples);
  }
}
