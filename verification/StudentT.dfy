/**
 The finite sum for the Student t distribution with an even number v = 2m + 2 of degrees of
 freedom.

 With s = x / sqrt(v + x^2) and u = 1 - s^2 = 1 / (1 + x^2 / v), the sum evaluates to
 1/2 + Arc / 2, where Arc = s (b_0 + b_1 u + ... + b_m u^m). This module shows that Arc, as a
 function of s, is the integral of K_m (1 - s^2)^m, and then that the whole sum, as a function
 of x, is the integral of the Student t density.

 Compound terms are passed to the small algebraic lemmas under names of their own, which keeps
 the polynomials that the solver sees short.
 */
module StudentT {
  import opened RealAnalysis

  /** b_j = (1/2) (3/4) ... ((2j-1)/2j) */
  function B(j: nat): real {
    if j == 0 then 1.0 else B(j - 1) * ((2 * j - 1) as real / (2 * j) as real)
  }

  /** b_0 + b_1 u + ... + b_m u^m */
  function Series(m: nat, u: real): real {
    if m == 0 then 1.0 else Series(m - 1, u) + B(m) * Pow(u, m)
  }

  /** K_m = (2m + 1) b_m */
  function Scale(m: nat): real {
    (2 * m + 1) as real * B(m)
  }

  /** A value of s together with u = 1 - s^2. */
  datatype Point = Point(s: real, u: real)

  predicate OnArc(p: Point) {
    0.0 <= p.s && 0.0 <= p.u && p.s * p.s + p.u == 1.0
  }

  function Arc(m: nat, p: Point): real {
    p.s * Series(m, p.u)
  }

  function ArcDensity(m: nat, p: Point): real {
    Scale(m) * Pow(p.u, m)
  }

  lemma {:induction false} CoefficientRange(j: nat)
    ensures 0.0 < B(j) <= 1.0
  {
    if j == 0 {
    } else {
      CoefficientRange(j - 1);
      var q := (2 * j - 1) as real / (2 * j) as real;
      assert 0.0 < q <= 1.0;
      UnitScales(q, B(j - 1));
    }
  }

  lemma ScalePositive(m: nat)
    ensures Scale(m) > 0.0
  {
    CoefficientRange(m);
  }

  lemma ScaleStep(m: nat, k: real)
    requires m > 0 && k == m as real
    ensures Scale(m) == (2.0 * k + 1.0) * B(m) && Scale(m - 1) == 2.0 * k * B(m)
  {
    var q := (2 * m - 1) as real / (2 * m) as real;
    calc {
      Scale(m - 1);
      (2 * m - 1) as real * B(m - 1);
      { assert (2 * m) as real * q == (2 * m - 1) as real; }
      (2 * m) as real * (B(m - 1) * q);
    }
  }

  lemma ArcOrder(a: Point, b: Point)
    requires OnArc(a) && OnArc(b) && a.s <= b.s
    ensures 0.0 <= b.u <= a.u <= 1.0 && b.s <= 1.0
  {
    SquareOrder(a.s, b.s);
    assert 0.0 <= a.s * a.s;
    if b.s > 1.0 { SquareStrict(1.0, b.s); }
  }

  // ---------------------------------------------------------------- local estimate

  /** What the right-end rectangle misses of the rise of Arc from a to b. */
  function Gap(m: nat, a: Point, b: Point): real {
    Arc(m, b) - Arc(m, a) - (b.s - a.s) * ArcDensity(m, b)
  }

  /** The growth of the bound on the gap with the m-th term. */
  function Step(k: real): real { 3.0 * k + 4.0 * (k * k) }

  function GapBound(m: nat): real {
    if m == 0 then 0.0 else GapBound(m - 1) + Step(m as real)
  }

  /** One more term of the series adds b_m r to the gap. */
  lemma GapStep(m: nat, k: real, a: Point, b: Point, d: real, pa: real, pb: real, q: real, bb: real, r: real)
    requires m > 0 && k == m as real && d == b.s - a.s && bb == b.s * b.s && pb == q - q * bb
    requires pa == Pow(a.u, m) && pb == Pow(b.u, m) && q == Pow(b.u, m - 1)
    requires r == 2.0 * k * d * q * bb - a.s * (pa - pb)
    ensures Gap(m, a, b) == Gap(m - 1, a, b) + B(m) * r
  {
    hide *;
    SeriesStep(m, a.u, pa);
    SeriesStep(m, b.u, pb);
    ScaleStep(m, k);
    GapIs(m, a, b, d, pb);
    GapIs(m - 1, a, b, d, q);
    GapAlgebra(k, a.s, b.s, d, bb, Series(m - 1, a.u), Series(m - 1, b.u), B(m), pa, pb, q, r,
               Series(m, a.u), Series(m, b.u), Scale(m - 1), Scale(m), Gap(m - 1, a, b), Gap(m, a, b));
  }

  lemma SeriesStep(m: nat, u: real, p: real)
    requires m > 0 && p == Pow(u, m)
    ensures Series(m, u) == Series(m - 1, u) + B(m) * p
  {
  }

  lemma GapIs(m: nat, a: Point, b: Point, d: real, p: real)
    requires d == b.s - a.s && p == Pow(b.u, m)
    ensures Gap(m, a, b) == b.s * Series(m, b.u) - a.s * Series(m, a.u) - d * (Scale(m) * p)
  {
  }

  lemma GapAlgebra(k: real, a: real, b: real, d: real, bb: real, sa: real, sb: real, c: real, pa: real, pb: real,
                   q: real, r: real, ta: real, tb: real, k0: real, k1: real, g0: real, g: real)
    requires d == b - a && pb == q - q * bb && r == 2.0 * k * d * q * bb - a * (pa - pb)
    requires ta == sa + c * pa && tb == sb + c * pb && k0 == 2.0 * k * c && k1 == (2.0 * k + 1.0) * c
    requires g0 == b * sb - a * sa - d * (k0 * q) && g == b * tb - a * ta - d * (k1 * pb)
    ensures g == g0 + c * r
  {
    var n, x, y, v := 2.0 * k * d, c * pa, c * pb, c * q;
    var vb := v * bb;
    assert y == v - vb;
    assert d * (k0 * q) == n * v;
    assert d * (k1 * pb) == n * y + d * y;
    assert c * r == n * vb - a * x + a * y;
    GapSum(a, b, d, n, sa, sb, x, y, v, vb, g0, g, c * r);
  }

  lemma GapSum(a: real, b: real, d: real, n: real, sa: real, sb: real, x: real, y: real, v: real, vb: real,
               g0: real, g: real, cr: real)
    requires d == b - a && y == v - vb && cr == n * vb - a * x + a * y
    requires g0 == b * sb - a * sa - n * v && g == b * (sb + y) - a * (sa + x) - (n * y + d * y)
    ensures g == g0 + cr
  {
    assert b * y - d * y == a * y;
    assert n * v - n * y == n * vb;
  }

  lemma RiseForm(k: real, a: real, b: real, d: real, w: real, t: real, z: real, bb: real, pa: real, pb: real, q: real,
                 e: real, r: real)
    requires d == b - a && z == d * (a + b) && w == d * d && t == 2.0 * b + a && bb == b * b
    requires e == pa - pb - k * q * z && r == 2.0 * k * d * q * bb - a * (pa - pb)
    ensures r == k * q * (w * t) - a * e
  {
    var kq := k * q;
    calc {
      2.0 * k * d * q * bb - a * (pa - pb);
      2.0 * kq * d * bb - a * (e + kq * z);
      kq * (2.0 * d * bb - a * z) - a * e;
      {
        assert 2.0 * d * bb - a * z == d * (2.0 * bb - a * (a + b))
            == d * ((b - a) * (2.0 * b + a)) == d * d * (2.0 * b + a);
      }
      kq * (d * d * (2.0 * b + a)) - a * e;
    }
  }

  lemma RiseEstimate(k: real, kk: real, bound: real, a: real, q: real, w: real, t: real, zz: real, e: real, r: real)
    requires 0.0 <= a <= 1.0 && 0.0 <= q <= 1.0 && 0.0 <= k && 0.0 <= kk && 0.0 <= w && 0.0 <= t <= 3.0
    requires zz <= 4.0 * w && bound == 3.0 * k + 4.0 * kk
    requires 0.0 <= e <= kk * zz && r == k * q * (w * t) - a * e
    ensures -(bound * w) <= r <= bound * w
  {
    var wt, rise, fall := w * t, k * q * (w * t), a * e;
    assert 0.0 <= fall <= e by { UnitScales(a, e); }
    assert e <= 4.0 * (kk * w) by { MulMonotone(zz, 4.0 * w, kk); }
    assert 0.0 <= wt <= 3.0 * w by { MulMonotone(0.0, t, w); MulMonotone(t, 3.0, w); }
    ThreefoldRise(k, q, w, wt, rise);
    assert 0.0 <= k * w && 0.0 <= kk * w;
    assert bound * w == 3.0 * (k * w) + 4.0 * (kk * w);
  }

  lemma ThreefoldRise(k: real, q: real, w: real, wt: real, rise: real)
    requires 0.0 <= q <= 1.0 && 0.0 <= k && 0.0 <= wt <= 3.0 * w && rise == k * q * wt
    ensures 0.0 <= rise <= 3.0 * (k * w)
  {
    var p := k * wt;
    assert 0.0 <= p <= 3.0 * (k * w) by { MulMonotone(wt, 3.0 * w, k); MulMonotone(0.0, wt, k); }
    assert rise == q * p;
    UnitScales(q, p);
  }

  lemma Spread(a: real, b: real, d: real, w: real, z: real, zz: real)
    requires 0.0 <= a <= b <= 1.0 && d == b - a && z == d * (a + b) && w == d * d && zz == z * z
    ensures 0.0 <= w && zz <= 4.0 * w
  {
    var s := a + b;
    assert s * s <= 4.0 by { SquareOrder(s, 2.0); }
    assert s * s * (d * d) <= 4.0 * (d * d) by { MulMonotone(s * s, 4.0, d * d); }
    assert z * z == s * s * (d * d);
  }

  lemma RiseBound(k: real, kk: real, bound: real, a: real, b: real, d: real, w: real, t: real, z: real, zz: real, bb: real,
                  pa: real, pb: real, q: real, e: real, r: real)
    requires 0.0 <= k && 0.0 <= kk && bound == 3.0 * k + 4.0 * kk && 0.0 <= a <= b <= 1.0 && 0.0 <= q <= 1.0
    requires d == b - a && z == d * (a + b) && zz == z * z && w == d * d && t == 2.0 * b + a && bb == b * b
    requires e == pa - pb - k * q * z && 0.0 <= e <= kk * zz
    requires r == 2.0 * k * d * q * bb - a * (pa - pb)
    ensures -(bound * w) <= r <= bound * w
  {
    RiseForm(k, a, b, d, w, t, z, bb, pa, pb, q, e, r);
    Spread(a, b, d, w, z, zz);
    RiseEstimate(k, kk, bound, a, q, w, t, zz, e, r);
  }

  lemma ArcDifference(a: Point, b: Point, d: real, z: real)
    requires OnArc(a) && OnArc(b) && d == b.s - a.s && z == d * (a.s + b.s)
    ensures z == a.u - b.u
  {
  }

  lemma PowOnArc(b: Point, m: nat, bb: real)
    requires m > 0 && OnArc(b) && bb == b.s * b.s
    ensures Pow(b.u, m) == Pow(b.u, m - 1) - Pow(b.u, m - 1) * bb
  {
    PowStep(b.u, m);
    var q := Pow(b.u, m - 1);
    assert b.u * q == (1.0 - bb) * q;
  }

  /** The remainder e of the tangent, with z the rise of u and zz its square. */
  ghost predicate IsRemainder(k: real, a: real, b: real, d: real, z: real, zz: real, pa: real, pb: real, q: real, e: real) {
    z == d * (a + b) && zz == z * z && e == pa - pb - k * q * z
  }

  ghost predicate IsRise(k: real, a: real, b: real, d: real, w: real, bb: real, pa: real, pb: real, q: real, r: real) {
    d == b - a && w == d * d && bb == b * b && r == 2.0 * k * d * q * bb - a * (pa - pb)
  }

  ghost predicate IsBound(k: real, kk: real, bound: real) { kk == k * k && bound == 3.0 * k + 4.0 * kk && 0.0 <= kk }

  ghost predicate IsSmall(kk: real, zz: real, e: real) { 0.0 <= e <= kk * zz }

  lemma RiseIs(k: real, a: real, b: real, d: real, w: real, bb: real, pa: real, pb: real, q: real, r: real)
    requires d == b - a && w == d * d && bb == b * b && r == 2.0 * k * d * q * bb - a * (pa - pb)
    ensures IsRise(k, a, b, d, w, bb, pa, pb, q, r)
  {
  }

  lemma BoundIs(k: real) returns (kk: real)
    ensures IsBound(k, kk, Step(k))
  {
    kk := k * k;
    SquareZero(k, kk);
  }

  lemma Remainder(k: real, a: real, b: real, d: real, pa: real, pb: real, q: real) returns (z: real, zz: real, e: real)
    ensures IsRemainder(k, a, b, d, z, zz, pa, pb, q, e)
  {
    z := d * (a + b);
    zz := z * z;
    e := pa - pb - k * q * z;
  }

  lemma RemainderIsSmall(m: nat, k: real, kk: real, a: Point, b: Point, d: real, z: real, zz: real, pa: real, pb: real,
                         q: real, e: real)
    requires m > 0 && k == m as real && IsBound(k, kk, Step(k)) && OnArc(a) && OnArc(b) && a.s <= b.s && d == b.s - a.s
    requires pa == Pow(a.u, m) && pb == Pow(b.u, m) && q == Pow(b.u, m - 1) && IsRemainder(k, a.s, b.s, d, z, zz, pa, pb, q, e)
    ensures IsSmall(kk, zz, e) && 0.0 <= q <= 1.0 && 0.0 <= a.s && b.s <= 1.0
  {
    ArcOrder(a, b);
    ArcDifference(a, b, d, z);
    PowInUnit(b.u, m - 1);
    PowTangent(a.u, b.u, m, z, zz, k, e);
    hide Pow;
  }

  lemma SmallRise(k: real, kk: real, bound: real, a: real, b: real, d: real, w: real, t: real, z: real, zz: real, bb: real,
                  pa: real, pb: real, q: real, e: real, r: real)
    requires 0.0 <= k && IsBound(k, kk, bound) && 0.0 <= a <= b <= 1.0 && 0.0 <= q <= 1.0 && t == 2.0 * b + a
    requires IsRemainder(k, a, b, d, z, zz, pa, pb, q, e) && IsRise(k, a, b, d, w, bb, pa, pb, q, r) && IsSmall(kk, zz, e)
    ensures -(bound * w) <= r <= bound * w
  {
    RiseBound(k, kk, bound, a, b, d, w, t, z, zz, bb, pa, pb, q, e, r);
  }

  lemma PointRise(m: nat, k: real, a: Point, b: Point, d: real, w: real, bb: real, pa: real, pb: real, q: real, r: real)
    requires m > 0 && k == m as real && OnArc(a) && OnArc(b) && a.s <= b.s && d == b.s - a.s
    requires pa == Pow(a.u, m) && pb == Pow(b.u, m) && q == Pow(b.u, m - 1) && IsRise(k, a.s, b.s, d, w, bb, pa, pb, q, r)
    ensures -(Step(k) * w) <= r <= Step(k) * w
  {
    hide *;
    var kk := BoundIs(k);
    var z, zz, e := Remainder(k, a.s, b.s, d, pa, pb, q);
    RemainderIsSmall(m, k, kk, a, b, d, z, zz, pa, pb, q, e);
    SmallRise(k, kk, Step(k), a.s, b.s, d, w, 2.0 * b.s + a.s, z, zz, bb, pa, pb, q, e, r);
  }

  lemma GapGrows(m: nat, a: Point, b: Point, d: real, w: real) returns (r: real)
    requires m > 0 && OnArc(a) && OnArc(b) && a.s <= b.s && d == b.s - a.s && w == d * d
    ensures Gap(m, a, b) == Gap(m - 1, a, b) + B(m) * r
    ensures -(Step(m as real) * w) <= r <= Step(m as real) * w
  {
    hide *;
    var k, pa, pb, q, bb := m as real, Pow(a.u, m), Pow(b.u, m), Pow(b.u, m - 1), b.s * b.s;
    r := 2.0 * k * d * q * bb - a.s * (pa - pb);
    PowOnArc(b, m, bb);
    RiseIs(k, a.s, b.s, d, w, bb, pa, pb, q, r);
    PointRise(m, k, a, b, d, w, bb, pa, pb, q, r);
    GapStep(m, k, a, b, d, pa, pb, q, bb, r);
  }

  lemma {:induction false} GapIsQuadratic(m: nat, a: Point, b: Point, d: real, w: real)
    requires OnArc(a) && OnArc(b) && a.s <= b.s && d == b.s - a.s && w == d * d
    ensures -(GapBound(m) * w) <= Gap(m, a, b) <= GapBound(m) * w
  {
    hide *;
    if m == 0 {
      NoGap(a, b, w);
    } else {
      var bound, step := GapBound(m), Step(m as real);
      BoundGrows(m);
      GapIsQuadratic(m - 1, a, b, d, w);
      var r := GapGrows(m, a, b, d, w);
      CoefficientRange(m);
      AddWithin(Gap(m, a, b), Gap(m - 1, a, b), B(m), r, GapBound(m - 1), step, bound, w);
    }
  }

  lemma BoundGrows(m: nat)
    requires m > 0
    ensures GapBound(m) == GapBound(m - 1) + Step(m as real)
  {
  }

  lemma NoGap(a: Point, b: Point, w: real)
    ensures Gap(0, a, b) == 0.0 == GapBound(0) * w
  {
    assert Pow(b.u, 0) == 1.0;
  }

  lemma AddWithin(g: real, before: real, c: real, r: real, k0: real, k: real, bound: real, w: real)
    requires 0.0 <= c <= 1.0 && g == before + c * r && bound == k0 + k
    requires -(k0 * w) <= before <= k0 * w && -(k * w) <= r <= k * w
    ensures -(bound * w) <= g <= bound * w
  {
    UnitScalesBoth(c, r, k * w);
  }

  lemma UnitScalesBoth(c: real, r: real, k: real)
    requires 0.0 <= c <= 1.0 && -k <= r <= k
    ensures -k <= c * r <= k
  {
    if 0.0 <= r {
      UnitScales(c, r);
    } else {
      calc { -k; <= r; <= c * r; }
      calc { c * r; <= 0.0; <= k; }
    }
  }

  // ---------------------------------------------------------------- integral in s

  /** By how much the rise of Arc from a to b falls short of the right-end rectangle or exceeds the left-end one. */
  function Miss(left: bool, m: nat, a: Point, b: Point): real {
    if left then Arc(m, b) - Arc(m, a) - (b.s - a.s) * ArcDensity(m, a)
    else (b.s - a.s) * ArcDensity(m, b) - (Arc(m, b) - Arc(m, a))
  }

  lemma ArcAt(s: real, ss: real)
    requires 0.0 <= s <= 1.0 && ss == s * s
    ensures OnArc(Point(s, 1.0 - ss)) && (s < 1.0 ==> 0.0 < 1.0 - ss)
  {
    SquareOrder(s, 1.0);
  }

  lemma Middle(a: Point, b: Point) returns (mid: Point)
    requires OnArc(a) && OnArc(b) && a.s <= b.s
    ensures OnArc(mid) && mid.s - a.s == b.s - mid.s && a.s <= mid.s <= b.s
    ensures a.s < b.s ==> a.s < mid.s < b.s && 0.0 < mid.u
  {
    assert 0.0 <= a.s;
    hide OnArc;
    ArcOrder(a, b);
    var s := (a.s + b.s) / 2.0;
    ArcAt(s, s * s);
    mid := Point(s, 1.0 - s * s);
  }

  lemma DensityDecreases(m: nat, a: Point, b: Point)
    requires OnArc(a) && OnArc(b) && a.s <= b.s
    ensures 0.0 <= ArcDensity(m, b) <= ArcDensity(m, a)
    ensures 0.0 < b.u ==> 0.0 < ArcDensity(m, b)
  {
    ArcOrder(a, b);
    hide OnArc, Pow, Scale;
    ScalePositive(m);
    PowMonotone(b.u, a.u, m);
    if 0.0 < b.u { PowPositive(b.u, m); }
    ProductDecreases(Scale(m), Pow(a.u, m), Pow(b.u, m), ArcDensity(m, a), ArcDensity(m, b));
  }

  lemma ProductDecreases(k: real, x: real, y: real, p: real, q: real)
    requires 0.0 < k && 0.0 <= y <= x && p == k * x && q == k * y
    ensures 0.0 <= q <= p && (0.0 < y ==> 0.0 < q)
  {
    MulMonotone(y, x, k);
    MulMonotone(0.0, y, k);
    if 0.0 < y { PositiveProduct(k, y, q); }
  }

  lemma MissQuadratic(left: bool, m: nat, a: Point, b: Point, d: real, w: real)
    requires OnArc(a) && OnArc(b) && a.s <= b.s && d == b.s - a.s && w == d * d
    ensures Miss(left, m, a, b) <= GapBound(m) * w
  {
    hide *;
    var fa, fb, ga, gb := ArcDensity(m, a), ArcDensity(m, b), Arc(m, a), Arc(m, b);
    MissIs(left, m, a, b, d, fa, fb, ga, gb);
    GapIsQuadratic(m, a, b, d, w);
    DensityDecreases(m, a, b);
    assert fb * d <= fa * d by { MulMonotone(fb, fa, d); }
  }

  lemma MissIs(left: bool, m: nat, a: Point, b: Point, d: real, fa: real, fb: real, ga: real, gb: real)
    requires d == b.s - a.s && fa == ArcDensity(m, a) && fb == ArcDensity(m, b) && ga == Arc(m, a) && gb == Arc(m, b)
    ensures Gap(m, a, b) == gb - ga - d * fb
    ensures Miss(left, m, a, b) == if left then gb - ga - d * fa else d * fb - (gb - ga)
  {
    hide Arc, ArcDensity;
  }

  lemma MissSplits(left: bool, m: nat, a: Point, b: Point, c: Point)
    requires OnArc(a) && OnArc(b) && OnArc(c) && a.s <= b.s <= c.s
    ensures Miss(left, m, a, c) <= Miss(left, m, a, b) + Miss(left, m, b, c)
  {
    hide *;
    var fa, fb, fc := ArcDensity(m, a), ArcDensity(m, b), ArcDensity(m, c);
    var ga, gb, gc := Arc(m, a), Arc(m, b), Arc(m, c);
    var h1, h2, h := b.s - a.s, c.s - b.s, c.s - a.s;
    DensityDecreases(m, a, b);
    DensityDecreases(m, b, c);
    MissIs(left, m, a, b, h1, fa, fb, ga, gb);
    MissIs(left, m, b, c, h2, fb, fc, gb, gc);
    MissIs(left, m, a, c, h, fa, fc, ga, gc);
    RectanglesSplit(h1, h2, h, fa, fb, fc);
  }

  lemma RectanglesSplit(h1: real, h2: real, h: real, fa: real, fb: real, fc: real)
    requires 0.0 <= h1 && 0.0 <= h2 && h == h1 + h2 && fc <= fb <= fa
    ensures h * fc <= h1 * fb + h2 * fc && h1 * fa + h2 * fb <= h * fa
  {
    assert fc * h1 <= fb * h1 by { MulMonotone(fc, fb, h1); }
    assert fb * h2 <= fa * h2 by { MulMonotone(fb, fa, h2); }
  }

  /** Halving the interval k times shrinks a possible miss to c (b-a)^2 / 2^k. */
  lemma {:induction false} MissHalves(left: bool, m: nat, a: Point, b: Point, d: real, w: real, k: nat)
    requires OnArc(a) && OnArc(b) && a.s <= b.s && d == b.s - a.s && w == d * d
    ensures Miss(left, m, a, b) * Pow(2.0, k) <= GapBound(m) * w
    decreases k
  {
    hide *;
    if k == 0 {
      PowZero(2.0);
      MissQuadratic(left, m, a, b, d, w);
    } else {
      PowStep(2.0, k);
      PowPositive(2.0, k - 1);
      var mid := Middle(a, b);
      var h := mid.s - a.s;
      var hh := h * h;
      MissHalves(left, m, a, mid, h, hh, k - 1);
      MissHalves(left, m, mid, b, h, hh, k - 1);
      MissSplits(left, m, a, mid, b);
      HalvingAlgebra(Miss(left, m, a, b), Miss(left, m, a, mid), Miss(left, m, mid, b),
                     Pow(2.0, k - 1), Pow(2.0, k), GapBound(m), h, hh, d, w);
    }
  }

  lemma HalvingAlgebra(e: real, e1: real, e2: real, p: real, pp: real, c: real, h: real, hh: real, d: real, w: real)
    requires d == h + h && hh == h * h && w == d * d && e <= e1 + e2 && 0.0 <= p && pp == 2.0 * p
    requires e1 * p <= c * hh && e2 * p <= c * hh
    ensures e * pp <= c * w
  {
    assert e * p <= (e1 + e2) * p by { MulMonotone(e, e1 + e2, p); }
    assert (e1 + e2) * p == e1 * p + e2 * p;
    assert w == 4.0 * hh;
    assert c * w == 4.0 * (c * hh);
  }

  lemma NoMiss(left: bool, m: nat, a: Point, b: Point)
    requires OnArc(a) && OnArc(b) && a.s <= b.s
    ensures Miss(left, m, a, b) <= 0.0
  {
    hide *;
    var d := b.s - a.s;
    var e, c := Miss(left, m, a, b), GapBound(m) * (d * d);
    forall k: nat ensures e * Pow(2.0, k) <= c {
      MissHalves(left, m, a, b, d, d * d, k);
    }
    Archimedes(e, c);
  }

  /** Arc(m, .) is the integral of the decreasing function ArcDensity(m, .) over s. */
  lemma ArcIntegral(m: nat, a: Point, b: Point)
    requires OnArc(a) && OnArc(b) && a.s <= b.s
    ensures (b.s - a.s) * ArcDensity(m, b) <= Arc(m, b) - Arc(m, a) <= (b.s - a.s) * ArcDensity(m, a)
  {
    NoMiss(true, m, a, b);
    NoMiss(false, m, a, b);
    hide Arc, ArcDensity, OnArc;
  }
}
