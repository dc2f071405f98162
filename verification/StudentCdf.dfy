/**
 The cumulative distribution function of Student's t for an even number of degrees of freedom, as
 computed by onnxruntime/tool/etw/compare_two_sessions.cc, shown to be the integral of the
 Student t density. Square roots are passed in: `r` is always the positive root of v + x^2.
 */
module StudentCdf {
  import opened RealAnalysis
  import opened StudentT

  ghost predicate IsRoot(v: int, x: real, r: real) {
    r > 0.0 && r * r == v as real + x * x
  }

  predicate Even(v: int) { v >= 2 && v % 2 == 0 }

  function Terms(v: int): nat
    requires Even(v)
  {
    (v - 2) / 2
  }

  /** 1 / (1 + x^2 / v) */
  function Shrink(v: int, x: real): real
    requires v > 0
  {
    v as real / (v as real + x * x)
  }

  /** The closed form of the distribution function. */
  function Cdf(v: int, x: real, r: real): real
    requires Even(v) && r > 0.0
  {
    0.5 + x / (2.0 * r) * Series(Terms(v), Shrink(v, x))
  }

  /** The Student t density: c (1 + x^2/v)^(-(v+1)/2), where (1 + x^2/v)^(-1/2) is sqrt(v) / r. */
  function Density(v: int, x: real, r: real): real
    requires Even(v) && r > 0.0
  {
    Scale(Terms(v)) / 2.0 * Pow(Shrink(v, x), v / 2) / r
  }

  /** The place on the arc that corresponds to x. */
  function PointOf(v: int, x: real, r: real): Point
    requires v > 0 && r > 0.0
  {
    Point(x / r, Shrink(v, x))
  }

  lemma PointOnArc(v: int, x: real, r: real, p: Point)
    requires Even(v) && IsRoot(v, x, r) && 0.0 <= x && p == PointOf(v, x, r)
    ensures OnArc(p) && 0.0 < p.u && p.s * r == x && p.u * (r * r) == v as real && p.s < 1.0
    ensures x == 0.0 ==> p.s == 0.0
  {
    ArcCoordinates(v as real, x, r, r * r, p.s, p.u);
  }

  lemma ArcCoordinates(n: real, x: real, r: real, rr: real, s: real, u: real)
    requires 0.0 < n && 0.0 <= x && 0.0 < r && rr == r * r && rr == n + x * x
    requires s == x / r && u == n / (n + x * x)
    ensures s * r == x && u * rr == n && 0.0 <= s < 1.0 && 0.0 < u && s * s + u == 1.0
    ensures x == 0.0 ==> s == 0.0
  {
    assert s * r == x && u * rr == n && 0.0 < rr;
    var ss := s * s;
    assert ss * rr == x * x by { assert s * s * (r * r) == (s * r) * (s * r); }
    SumsToOne(ss, u, rr, x * x, n);
    assert s < 1.0 by { if 1.0 <= s { SquareOrder(1.0, s); } }
  }

  lemma SumsToOne(ss: real, u: real, rr: real, xx: real, n: real)
    requires 0.0 < rr && ss * rr == xx && u * rr == n && rr == n + xx
    ensures ss + u == 1.0
  {
    assert (ss + u - 1.0) * rr == 0.0;
  }

  lemma CdfIsArc(v: int, x: real, r: real, p: Point)
    requires Even(v) && r > 0.0 && p == PointOf(v, x, r)
    ensures Cdf(v, x, r) == 0.5 + Arc(Terms(v), p) / 2.0
  {
    var s := Series(Terms(v), Shrink(v, x));
    assert x / (2.0 * r) == (x / r) / 2.0;
    assert x / (2.0 * r) * s == (x / r) * s / 2.0;
  }

  // ---------------------------------------------------------------- the change of variable

  /** ds/dx = u / r */
  function Slope(p: Point, r: real): real
    requires r > 0.0
  {
    p.u / r
  }

  lemma RootsOrdered(v: int, x: real, y: real, rx: real, ry: real)
    requires IsRoot(v, x, rx) && IsRoot(v, y, ry) && 0.0 <= x <= y
    ensures rx <= ry
  {
    SquareOrder(x, y);
    SquareOrder(rx, ry);
  }

  /** y rx - x ry, the numerator of the chord, against both tangents. */
  lemma ChordNumerator(n: real, x: real, y: real, rx: real, ry: real, e: real, d: real)
    requires 0.0 <= x <= y && 0.0 < rx <= ry && 0.0 < n && d == y - x && e == y * rx - x * ry
    requires rx * rx == n + x * x && ry * ry == n + y * y
    ensures d * n * rx <= e * (ry * ry) && e * (rx * rx) <= d * n * ry
  {
    if y > 0.0 {
      var t, q, xx, yy, z := y * rx + x * ry, d * n, rx * rx, ry * ry, x + y;
      ChordPositive(n, x, y, rx, ry, d, y * rx, x * ry, q);
      ChordAlgebra(n, x, y, rx, ry, e, d, t);
      ChordBounds(x, y, rx, ry, t, xx, yy, z);
      CancelBelow(e, t, q, z, rx, ry, xx, yy);
    } else {
      ChordZero(n, x, y, rx, ry, e, d);
    }
  }

  lemma ChordZero(n: real, x: real, y: real, rx: real, ry: real, e: real, d: real)
    requires x == 0.0 && y == 0.0 && d == y - x && e == y * rx - x * ry
    ensures d * n * rx <= e * (ry * ry) && e * (rx * rx) <= d * n * ry
  {
    assert d == 0.0 && e == 0.0;
  }

  lemma ChordPositive(n: real, x: real, y: real, rx: real, ry: real, d: real, yr: real, xr: real, q: real)
    requires 0.0 <= x <= y && 0.0 < y && 0.0 < rx <= ry && 0.0 < n && d == y - x && yr == y * rx && xr == x * ry && q == d * n
    ensures 0.0 < yr + xr && 0.0 <= q
  {
    PositiveProduct(y, rx, yr);
    MulMonotone(0.0, x, ry);
    MulMonotone(0.0, d, n);
  }

  lemma ChordBounds(x: real, y: real, rx: real, ry: real, t: real, xx: real, yy: real, z: real)
    requires 0.0 <= x <= y && 0.0 < rx <= ry && t == y * rx + x * ry && xx == rx * rx && yy == ry * ry && z == x + y
    ensures rx * t <= z * yy && z * xx <= ry * t
  {
    var xy := rx * ry;
    assert xx <= xy by { MulMonotone(rx, ry, rx); }
    assert xy <= yy by { MulMonotone(rx, ry, ry); }
    assert rx * t == xx * y + xy * x && ry * t == xy * y + yy * x;
    assert xx * y <= yy * y by { MulMonotone(xx, yy, y); }
    assert xy * x <= yy * x by { MulMonotone(xy, yy, x); }
    assert xx * y <= xy * y by { MulMonotone(xx, xy, y); }
    assert xx * x <= yy * x by { MulMonotone(xx, yy, x); }
  }

  lemma ChordAlgebra(n: real, x: real, y: real, rx: real, ry: real, e: real, d: real, t: real)
    requires d == y - x && e == y * rx - x * ry && t == y * rx + x * ry
    requires rx * rx == n + x * x && ry * ry == n + y * y
    ensures e * t == d * n * (x + y)
  {
    calc {
      e * t;
      y * y * (rx * rx) - x * x * (ry * ry);
      y * y * (n + x * x) - x * x * (n + y * y);
      n * (y * y - x * x);
      d * n * (x + y);
    }
  }

  lemma CancelFactor(a: real, b: real, t: real, q: real, low: real, high: real)
    requires 0.0 < t && 0.0 <= q && low <= high && a * t == q * low && b * t == q * high
    ensures a <= b
  {
    MulMonotone(low, high, q);
    if b < a { MulStrict(b, a, t); }
  }

  lemma CancelBelow(e: real, t: real, q: real, z: real, rx: real, ry: real, xx: real, yy: real)
    requires 0.0 < t && 0.0 <= q && e * t == q * z && rx * t <= z * yy && z * xx <= ry * t
    ensures q * rx <= e * yy && e * xx <= q * ry
  {
    CancelFactor(q * rx, e * yy, t, q, rx * t, z * yy);
    CancelFactor(e * xx, q * ry, t, q, z * xx, ry * t);
  }

  /** s is a concave function of x with derivative u / r. */
  lemma ChordSlope(v: int, x: real, y: real, rx: real, ry: real, px: Point, py: Point, d: real)
    requires Even(v) && IsRoot(v, x, rx) && IsRoot(v, y, ry) && 0.0 <= x <= y && d == y - x
    requires px == PointOf(v, x, rx) && py == PointOf(v, y, ry)
    ensures d * Slope(py, ry) <= py.s - px.s <= d * Slope(px, rx)
  {
    hide *;
    var n, e, c := v as real, y * rx - x * ry, py.s - px.s;
    Numerator(v, x, y, rx, ry, px, py, e, c);
    Tangents(v, x, y, rx, ry, e, d);
    SlopeForm(v, x, px, rx);
    SlopeForm(v, y, py, ry);
    AboveTangent(d, Slope(py, ry), ry, rx, py.u, n, c, e);
    BelowTangent(d, Slope(px, rx), rx, ry, px.u, n, c, e);
  }

  /** f = u / r with u r^2 = n */
  ghost predicate IsSlope(f: real, u: real, n: real, r: real) { 0.0 < r && f * r == u && u * (r * r) == n }

  ghost predicate IsChord(c: real, e: real, rx: real, ry: real) { c * (rx * ry) == e }

  ghost predicate IsBetween(d: real, n: real, e: real, rx: real, ry: real) {
    d * n * rx <= e * (ry * ry) && e * (rx * rx) <= d * n * ry
  }

  lemma SlopePositive(p: Point, r: real)
    requires r > 0.0 && p.u > 0.0
    ensures Slope(p, r) > 0.0
  {
  }

  lemma SlopeForm(v: int, x: real, p: Point, r: real)
    requires Even(v) && IsRoot(v, x, r) && 0.0 <= x && p == PointOf(v, x, r)
    ensures r > 0.0 && IsSlope(Slope(p, r), p.u, v as real, r)
  {
    PointOnArc(v, x, r, p);
    hide PointOf;
  }

  lemma Numerator(v: int, x: real, y: real, rx: real, ry: real, px: Point, py: Point, e: real, c: real)
    requires Even(v) && IsRoot(v, x, rx) && IsRoot(v, y, ry) && 0.0 <= x <= y && e == y * rx - x * ry && c == py.s - px.s
    requires px == PointOf(v, x, rx) && py == PointOf(v, y, ry)
    ensures IsChord(c, e, rx, ry)
  {
    PointOnArc(v, x, rx, px);
    PointOnArc(v, y, ry, py);
    NumeratorAlgebra(x, y, rx, ry, px.s, py.s, c, e);
    hide IsRoot, PointOf, OnArc;
  }

  lemma NumeratorAlgebra(x: real, y: real, rx: real, ry: real, sx: real, sy: real, c: real, e: real)
    requires sx * rx == x && sy * ry == y && c == sy - sx && e == y * rx - x * ry
    ensures c * (rx * ry) == e
  {
    assert sy * (rx * ry) == (sy * ry) * rx;
    assert sx * (rx * ry) == (sx * rx) * ry;
  }

  lemma Tangents(v: int, x: real, y: real, rx: real, ry: real, e: real, d: real)
    requires Even(v) && IsRoot(v, x, rx) && IsRoot(v, y, ry) && 0.0 <= x <= y && d == y - x && e == y * rx - x * ry
    ensures IsBetween(d, v as real, e, rx, ry)
  {
    RootsOrdered(v, x, y, rx, ry);
    ChordNumerator(v as real, x, y, rx, ry, e, d);
  }

  lemma AboveTangent(d: real, f: real, r: real, q: real, u: real, n: real, c: real, e: real)
    requires IsSlope(f, u, n, r) && 0.0 < q && IsChord(c, e, q, r) && IsBetween(d, n, e, q, r)
    ensures d * f <= c
  {
    PositiveProduct(r, r, r * r);
    ScaleUp(d, f, r, q, u, n, c, e, r * r);
  }

  lemma BelowTangent(d: real, f: real, r: real, q: real, u: real, n: real, c: real, e: real)
    requires IsSlope(f, u, n, r) && 0.0 < q && IsChord(c, e, r, q) && IsBetween(d, n, e, r, q)
    ensures c <= d * f
  {
    PositiveProduct(r, r, r * r);
    ScaleDown(d, f, r, q, u, n, c, e, r * r);
  }

  lemma ScaleUp(d: real, f: real, r: real, q: real, u: real, n: real, c: real, e: real, rr: real)
    requires 0.0 < r && 0.0 < q && 0.0 < rr && rr == r * r && f * r == u && u * rr == n && c * (q * r) == e && d * n * q <= e * rr
    ensures d * f <= c
  {
    var w := r * rr * q;
    PositiveProduct(r, rr, r * rr);
    PositiveProduct(r * rr, q, w);
    assert d * f * w == d * n * q by { assert f * w == f * r * rr * q == n * q; }
    assert c * w == e * rr by { assert c * w == c * (q * r) * rr; }
    if c < d * f { MulStrict(c, d * f, w); }
  }

  lemma ScaleDown(d: real, f: real, r: real, q: real, u: real, n: real, c: real, e: real, rr: real)
    requires 0.0 < r && 0.0 < q && 0.0 < rr && rr == r * r && f * r == u && u * rr == n && c * (r * q) == e && e * rr <= d * n * q
    ensures c <= d * f
  {
    var w := r * rr * q;
    PositiveProduct(r, rr, r * rr);
    PositiveProduct(r * rr, q, w);
    assert d * f * w == d * n * q by { assert f * w == f * r * rr * q == n * q; }
    assert c * w == e * rr by { assert c * w == c * (r * q) * rr; }
    if d * f < c { MulStrict(d * f, c, w); }
  }

  // ---------------------------------------------------------------- the distribution function

  lemma DensityIs(v: int, x: real, r: real, p: Point)
    requires Even(v) && r > 0.0 && p == PointOf(v, x, r)
    ensures Density(v, x, r) == ArcDensity(Terms(v), p) / 2.0 * Slope(p, r)
  {
    var m := Terms(v);
    assert v / 2 == m + 1;
    PowStep(p.u, m + 1);
    DensityAlgebra(Scale(m), Pow(p.u, m), p.u, r);
  }

  lemma DensityAlgebra(k: real, q: real, u: real, r: real)
    requires 0.0 < r
    ensures k / 2.0 * (u * q) / r == k * q / 2.0 * (u / r)
  {
    var f := u / r;
    assert f * r == u;
    assert k / 2.0 * (u * q) == k * q / 2.0 * f * r;
  }

  /**
   The computed function is the integral of the Student t density: over every interval its rise
   lies between the two rectangles under and over the decreasing density.
   */
  lemma CdfIsIntegralOfDensity(v: int, x: real, y: real, rx: real, ry: real)
    requires Even(v) && IsRoot(v, x, rx) && IsRoot(v, y, ry) && 0.0 <= x <= y
    ensures (y - x) * Density(v, y, ry) <= Cdf(v, y, ry) - Cdf(v, x, rx) <= (y - x) * Density(v, x, rx)
  {
    assert rx > 0.0 && ry > 0.0;
    hide *;
    var m, px, py := Terms(v), PointOf(v, x, rx), PointOf(v, y, ry);
    var d, c, gx, gy := y - x, py.s - px.s, Arc(m, px), Arc(m, py);
    PointOnArc(v, x, rx, px);
    PointOnArc(v, y, ry, py);
    PointsOrdered(v, x, y, rx, ry, px, py);
    CdfIsArc(v, x, rx, px);
    CdfIsArc(v, y, ry, py);
    DensityDecreases(m, px, py);
    assert Squeezed(d, Slope(py, ry), c, Slope(px, rx)) by { ChordSqueezed(v, x, y, rx, ry, px, py, d, c); }
    assert Squeezed(c, ArcDensity(m, py), gy - gx, ArcDensity(m, px)) by { ArcSqueezed(m, px, py, c); }
    assert Halved(Density(v, x, rx), ArcDensity(m, px), Slope(px, rx)) by { DensityHalved(v, x, rx, px); }
    assert Halved(Density(v, y, ry), ArcDensity(m, py), Slope(py, ry)) by { DensityHalved(v, y, ry, py); }
    SqueezedBoth(d, c, gx, gy, ArcDensity(m, px), ArcDensity(m, py), Slope(px, rx), Slope(py, ry), Density(v, x, rx), Density(v, y, ry));
  }

  /** The rise is between the two rectangles over an interval of width d. */
  ghost predicate Squeezed(d: real, low: real, rise: real, high: real) { d * low <= rise <= d * high }

  ghost predicate Halved(f: real, a: real, k: real) { f == a / 2.0 * k }

  lemma ChordSqueezed(v: int, x: real, y: real, rx: real, ry: real, px: Point, py: Point, d: real, c: real)
    requires Even(v) && IsRoot(v, x, rx) && IsRoot(v, y, ry) && 0.0 <= x <= y && d == y - x && c == py.s - px.s
    requires px == PointOf(v, x, rx) && py == PointOf(v, y, ry)
    ensures Squeezed(d, Slope(py, ry), c, Slope(px, rx))
  {
    hide IsRoot, PointOf, Slope;
    ChordSlope(v, x, y, rx, ry, px, py, d);
  }

  lemma ArcSqueezed(m: nat, a: Point, b: Point, c: real)
    requires OnArc(a) && OnArc(b) && a.s <= b.s && c == b.s - a.s
    ensures Squeezed(c, ArcDensity(m, b), Arc(m, b) - Arc(m, a), ArcDensity(m, a))
  {
    hide OnArc, Arc, ArcDensity;
    ArcIntegral(m, a, b);
  }

  lemma DensityHalved(v: int, x: real, r: real, p: Point)
    requires Even(v) && r > 0.0 && p == PointOf(v, x, r)
    ensures Halved(Density(v, x, r), ArcDensity(Terms(v), p), Slope(p, r))
  {
    hide Density, ArcDensity, Slope, PointOf;
    DensityIs(v, x, r, p);
  }

  lemma SqueezedBoth(d: real, c: real, gx: real, gy: real, ax: real, ay: real, kx: real, ky: real, fx: real, fy: real)
    requires 0.0 <= d && 0.0 <= ay <= ax && Halved(fx, ax, kx) && Halved(fy, ay, ky)
    requires Squeezed(d, ky, c, kx) && Squeezed(c, ay, gy - gx, ax)
    ensures d * fy <= (gy - gx) / 2.0 <= d * fx
  {
    IntegralAlgebra(d, c, gx, gy, ax, ay, kx, ky, fx, fy);
  }

  lemma PointsOrdered(v: int, x: real, y: real, rx: real, ry: real, px: Point, py: Point)
    requires Even(v) && IsRoot(v, x, rx) && IsRoot(v, y, ry) && 0.0 <= x <= y
    requires px == PointOf(v, x, rx) && py == PointOf(v, y, ry)
    ensures px.s <= py.s
    ensures x < y ==> px.s < py.s
  {
    assert rx > 0.0 && ry > 0.0;
    PointOnArc(v, y, ry, py);
    var k := Slope(py, ry);
    assert 0.0 < k by { SlopePositive(py, ry); }
    hide *;
    var d := y - x;
    ChordSlope(v, x, y, rx, ry, px, py, d);
    var rise := d * k;
    if x < y { PositiveProduct(d, k, rise); } else { assert rise == 0.0; }
    assert rise <= py.s - px.s;
  }

  lemma IntegralAlgebra(d: real, c: real, gx: real, gy: real, ax: real, ay: real, kx: real, ky: real, fx: real, fy: real)
    requires 0.0 <= d && 0.0 <= ay <= ax && fx == ax / 2.0 * kx && fy == ay / 2.0 * ky
    requires d * ky <= c <= d * kx && c * ay <= gy - gx <= c * ax
    ensures d * fy <= (gy - gx) / 2.0 <= d * fx
  {
    var low, high := d * ky, d * kx;
    assert low * ay <= c * ay by { MulMonotone(low, c, ay); }
    assert c * ax <= high * ax by { MulMonotone(c, high, ax); }
    assert d * fy == low * ay / 2.0 && d * fx == high * ax / 2.0;
  }

  lemma {:induction false} SeriesAtZero(m: nat)
    ensures Series(m, 0.0) == 1.0
  {
    if m == 0 {
    } else {
      SeriesAtZero(m - 1);
      assert Pow(0.0, m) == 0.0 * Pow(0.0, m - 1);
    }
  }

  /** Arc climbs from 0 to 1 and never reaches 1 before the end. */
  lemma ArcRange(m: nat, p: Point)
    requires OnArc(p) && p.s < 1.0
    ensures 0.0 <= Arc(m, p) < 1.0 && 1.0 - Arc(m, p) <= (1.0 - p.s) * ArcDensity(m, p)
    ensures 0.0 < p.s ==> 0.0 < Arc(m, p)
  {
    hide *;
    var top, start := Point(1.0, 0.0), Point(0.0, 1.0);
    ArcEnds(m, p);
    ArcIntegral(m, p, top);
    Climb(m, start, p);
    ClimbStrictly(m, p, top);
    if 0.0 < p.s { ClimbStrictly(m, start, p); }
  }

  lemma ArcEnds(m: nat, p: Point)
    requires OnArc(p)
    ensures Arc(m, Point(1.0, 0.0)) == 1.0 && Arc(m, Point(0.0, 1.0)) == 0.0
    ensures OnArc(Point(1.0, 0.0)) && OnArc(Point(0.0, 1.0)) && 0.0 <= p.s
  {
    SeriesAtZero(m);
  }

  /** Even up to the end of the arc, where the density may be 0. */
  lemma ClimbStrictly(m: nat, a: Point, b: Point)
    requires OnArc(a) && OnArc(b) && a.s < b.s
    ensures Arc(m, a) < Arc(m, b)
  {
    hide *;
    var mid := Middle(a, b);
    Climb(m, a, mid);
    Climb(m, mid, b);
  }

  lemma Climb(m: nat, a: Point, b: Point)
    requires OnArc(a) && OnArc(b) && a.s <= b.s
    ensures Arc(m, a) <= Arc(m, b)
    ensures a.s < b.s && 0.0 < b.u ==> Arc(m, a) < Arc(m, b)
  {
    hide *;
    ArcIntegral(m, a, b);
    DensityDecreases(m, a, b);
    var d, f := b.s - a.s, ArcDensity(m, b);
    var rise := d * f;
    if 0.0 < d && 0.0 < f { PositiveProduct(d, f, rise); } else { assert rise == 0.0; }
  }

  /** For x >= 0 the value lies in [1/2, 1), and is 1/2 only at 0; the tail is at most (v-1) b_m u^(v/2) / 2. */
  lemma CdfRange(v: int, x: real, r: real)
    requires Even(v) && IsRoot(v, x, r) && 0.0 <= x
    ensures 0.5 <= Cdf(v, x, r) < 1.0
    ensures Cdf(v, x, r) == 0.5 <==> x == 0.0
    ensures 1.0 - Cdf(v, x, r) <= Scale(Terms(v)) / 2.0 * Pow(Shrink(v, x), v / 2)
  {
    hide *;
    RootIsPositive(v, x, r);
    var m, p := Terms(v), PointOf(v, x, r);
    PointOnArc(v, x, r, p);
    CdfIsArc(v, x, r, p);
    ArcRange(m, p);
    PointIs(v, x, r);
    PowStep(p.u, m + 1);
    ArcDensityIs(m, p);
    DensityDecreases(m, p, p);
    CapIsSmall(p);
    SameSign(p.s, r, x);
    ArcAtZero(m, p);
    TailAlgebra(1.0 - p.s, p.u, Scale(m), Pow(p.u, m), Pow(p.u, m + 1), ArcDensity(m, p), Arc(m, p));
  }

  lemma RootIsPositive(v: int, x: real, r: real)
    requires Even(v) && IsRoot(v, x, r)
    ensures v > 0 && r > 0.0
  {
  }

  lemma PointIs(v: int, x: real, r: real)
    requires Even(v) && r > 0.0
    ensures PointOf(v, x, r).u == Shrink(v, x) && v / 2 == Terms(v) + 1
  {
  }

  lemma ArcDensityIs(m: nat, p: Point)
    ensures ArcDensity(m, p) == Scale(m) * Pow(p.u, m)
  {
  }

  lemma ArcAtZero(m: nat, p: Point)
    ensures p.s == 0.0 ==> Arc(m, p) == 0.0
  {
  }

  lemma SameSign(s: real, r: real, x: real)
    requires r > 0.0 && s * r == x
    ensures 0.0 < s <==> 0.0 < x
    ensures s == 0.0 <==> x == 0.0
  {
    if s > 0.0 { PositiveProduct(s, r, x); }
    if s < 0.0 { PositiveProduct(-s, r, -x); }
  }

  lemma CapIsSmall(p: Point)
    requires OnArc(p) && p.s < 1.0
    ensures 1.0 - p.s <= p.u
  {
    UnitScales(p.s, p.s);
  }

  lemma TailAlgebra(c: real, u: real, k: real, q: real, uq: real, f: real, g: real)
    requires uq == u * q && f == k * q && 0.0 <= f && c <= u && 1.0 - g <= c * f
    ensures (1.0 - g) / 2.0 <= k / 2.0 * uq
  {
    assert c * f <= u * f by { MulMonotone(c, u, f); }
    assert u * f == k * uq;
  }

  /** F(-x) == 1 - F(x) */
  lemma CdfSymmetric(v: int, x: real, r: real)
    requires Even(v) && IsRoot(v, x, r)
    ensures IsRoot(v, -x, r) && Cdf(v, -x, r) == 1.0 - Cdf(v, x, r)
  {
    assert (-x) * (-x) == x * x;
    assert (-x) / (2.0 * r) == -(x / (2.0 * r));
    OddProduct(x / (2.0 * r), Series(Terms(v), Shrink(v, x)));
  }

  lemma OddProduct(t: real, s: real)
    ensures -t * s == -(t * s)
  {
  }

  lemma CdfIncreasesRight(v: int, x: real, y: real, rx: real, ry: real)
    requires Even(v) && IsRoot(v, x, rx) && IsRoot(v, y, ry) && 0.0 <= x < y
    ensures Cdf(v, x, rx) < Cdf(v, y, ry)
  {
    assert rx > 0.0 && ry > 0.0;
    hide *;
    var px, py := PointOf(v, x, rx), PointOf(v, y, ry);
    PointOnArc(v, x, rx, px);
    PointOnArc(v, y, ry, py);
    ChordSlope(v, x, y, rx, ry, px, py, y - x);
    PointsOrdered(v, x, y, rx, ry, px, py);
    CdfIsArc(v, x, rx, px);
    CdfIsArc(v, y, ry, py);
    Climb(Terms(v), px, py);
  }

  /** The computed function is strictly increasing on the whole line. */
  lemma CdfStrictlyIncreasing(v: int, x: real, y: real, rx: real, ry: real)
    requires Even(v) && IsRoot(v, x, rx) && IsRoot(v, y, ry) && x < y
    ensures Cdf(v, x, rx) < Cdf(v, y, ry)
  {
    assert rx > 0.0 && ry > 0.0;
    hide *;
    CdfSymmetric(v, x, rx);
    CdfSymmetric(v, y, ry);
    if 0.0 <= x {
      CdfIncreasesRight(v, x, y, rx, ry);
    } else if y <= 0.0 {
      CdfIncreasesRight(v, -y, -x, ry, rx);
    } else {
      CdfRange(v, -x, rx);
      CdfRange(v, y, ry);
    }
  }
}
