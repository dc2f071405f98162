/**
 The comparison of two profiling traces by a pooled two-sample t test, following
 onnxruntime/tool/etw/compare_two_sessions.cc. Samples are integers, statistics exact reals, and
 the square root is a parameter. A quotient by zero is not a number of the model: it is
 `NotFinite`, which stands for the infinities and NaN of the original.
 */
module TraceComparison {
  import opened RealAnalysis
  import opened StudentT
  import opened StudentCdf

  // ---------------------------------------------------------------- mean and variance

  function Total(s: seq<int>): int {
    if s == [] then 0 else Total(s[..|s| - 1]) + s[|s| - 1]
  }

  function TotalSquares(s: seq<int>): int {
    if s == [] then 0 else TotalSquares(s[..|s| - 1]) + s[|s| - 1] * s[|s| - 1]
  }

  function Mean(s: seq<int>): real
    requires s != []
  {
    Total(s) as real / |s| as real
  }

  /** Sum of the squared deviations from c: the second pass of the textbook variance. */
  function Deviations(s: seq<int>, c: real): real {
    if s == [] then 0.0
    else Deviations(s[..|s| - 1], c) + (s[|s| - 1] as real - c) * (s[|s| - 1] as real - c)
  }

  function Variance(s: seq<int>): real
    requires |s| >= 2
  {
    Deviations(s, Mean(s)) / (|s| - 1) as real
  }

  predicate Constant(s: seq<int>) {
    forall i :: 0 <= i < |s| ==> s[i] == s[0]
  }

  lemma {:induction false} DeviationsExpand(s: seq<int>, c: real)
    ensures Deviations(s, c) == TotalSquares(s) as real - 2.0 * c * Total(s) as real + |s| as real * (c * c)
  {
    if s == [] {
    } else {
      var rest, x := s[..|s| - 1], s[|s| - 1] as real;
      DeviationsExpand(rest, c);
      assert (x - c) * (x - c) == x * x - 2.0 * c * x + c * c;
      assert (s[|s| - 1] * s[|s| - 1]) as real == x * x;
      assert 2.0 * c * Total(s) as real == 2.0 * c * Total(rest) as real + 2.0 * c * x;
      assert |s| as real * (c * c) == |rest| as real * (c * c) + c * c;
    }
  }

  lemma {:induction false} DeviationsZero(s: seq<int>, c: real)
    ensures Deviations(s, c) >= 0.0
    ensures Deviations(s, c) == 0.0 <==> forall i :: 0 <= i < |s| ==> s[i] as real == c
  {
    if s == [] {
    } else {
      var rest, d := s[..|s| - 1], s[|s| - 1] as real - c;
      DeviationsZero(rest, c);
      SquareZero(d, d * d);
      assert forall i :: 0 <= i < |rest| ==> rest[i] == s[i];
    }
  }

  lemma {:induction false} TotalOfConstant(s: seq<int>)
    requires s != [] && Constant(s)
    ensures Total(s) == |s| * s[0]
  {
    if |s| > 1 { TotalOfConstant(s[..|s| - 1]); }
  }

  lemma VarianceZero(s: seq<int>)
    requires |s| >= 2
    ensures Variance(s) >= 0.0
    ensures Variance(s) == 0.0 <==> Constant(s)
  {
    var c := Mean(s);
    DeviationsZero(s, c);
    if Constant(s) {
      TotalOfConstant(s);
      assert c == s[0] as real;
    }
  }

  method CalcMeanAndStdSquare(input: seq<int>) returns (mean: real, variance: real)
    requires |input| >= 2
    ensures mean == Mean(input)
    ensures variance == Variance(input) >= 0.0
  {
    var sum, sumSquare := 0, 0;
    for i := 0 to |input|
      invariant sum == Total(input[..i]) && sumSquare == TotalSquares(input[..i])
    {
      var t := input[i];
      sum := sum + t;
      sumSquare := sumSquare + t * t;
      assert input[..i + 1][..i] == input[..i];
    }
    assert input[..|input|] == input;
    var n := |input| as real;
    mean := sum as real / n;
    variance := (sumSquare as real - n * mean * mean) / (n - 1.0);
    DeviationsExpand(input, mean);
    OnePass(n, sum as real, sumSquare as real, mean, Deviations(input, mean));
    VarianceZero(input);
  }

  lemma OnePass(n: real, sum: real, squares: real, mean: real, dev: real)
    requires n > 0.0 && mean == sum / n && dev == squares - 2.0 * mean * sum + n * (mean * mean)
    ensures squares - n * mean * mean == dev
  {
    assert mean * n == sum;
    assert mean * sum == n * (mean * mean);
  }

  // ---------------------------------------------------------------- the t statistic

  datatype Float = Number(value: real) | NotFinite

  datatype TTestResult = TTestResult(mean1: real, mean2: real, std1: real, std2: real, tvalue: Float)

  /** The squared standard error of the difference of the means. */
  function Pooled(a: seq<int>, b: seq<int>): real
    requires |a| >= 2 && |b| >= 2
  {
    SquaredError(Deviations(a, Mean(a)), Deviations(b, Mean(b)), |a|, |b|)
  }

  /** From the sums of squared deviations and the sizes of the samples. */
  function SquaredError(da: real, db: real, m: nat, n: nat): real
    requires m >= 2 && n >= 2
  {
    (da + db) / (m + n - 2) as real * (1.0 / m as real + 1.0 / n as real)
  }

  /** diff / sqrt(se) */
  function Ratio(diff: real, se: real, sqrt: real -> real): Float {
    var d := sqrt(se);
    if d == 0.0 then NotFinite else Number(diff / d)
  }

  function TValue(a: seq<int>, b: seq<int>, sqrt: real -> real): Float
    requires |a| >= 2 && |b| >= 2
  {
    Ratio(Mean(a) - Mean(b), Pooled(a, b), sqrt)
  }

  method CalcTValue(input1: seq<int>, input2: seq<int>, sqrt: real -> real) returns (result: TTestResult)
    requires |input1| >= 2 && |input2| >= 2
    ensures result == TTestResult(Mean(input1), Mean(input2), sqrt(Variance(input1)), sqrt(Variance(input2)),
                                  TValue(input1, input2, sqrt))
  {
    hide *;
    var m1, v1 := CalcMeanAndStdSquare(input1);
    var m2, v2 := CalcMeanAndStdSquare(input2);
    var diffMean := m1 - m2;
    var n1, n2 := |input1|, |input2|;
    var d1, d2 := (n1 - 1) as real * v1, (n2 - 1) as real * v2;
    VarianceIs(input1);
    VarianceIs(input2);
    var sdiff := (d1 + d2) / (n1 + n2 - 2) as real;
    sdiff := sdiff * (1.0 / n1 as real + 1.0 / n2 as real);
    PooledIs(input1, input2);
    SquaredErrorIs(d1, d2, n1, n2);
    assert d1 == Deviations(input1, Mean(input1));
    assert d2 == Deviations(input2, Mean(input2));
    assert sdiff == Pooled(input1, input2);
    var root := sqrt(sdiff);
    var t := if root == 0.0 then NotFinite else Number(diffMean / root);
    TValueIs(input1, input2, sqrt);
    RatioIs(diffMean, sdiff, sqrt);
    result := TTestResult(m1, m2, sqrt(v1), sqrt(v2), t);
  }

  lemma VarianceIs(s: seq<int>)
    requires |s| >= 2
    ensures (|s| - 1) as real * Variance(s) == Deviations(s, Mean(s))
  {
    hide Mean, Deviations;
  }

  lemma SquaredErrorIs(da: real, db: real, m: nat, n: nat)
    requires m >= 2 && n >= 2
    ensures SquaredError(da, db, m, n) == (da + db) / (m + n - 2) as real * (1.0 / m as real + 1.0 / n as real)
  {
  }

  lemma RatioIs(diff: real, se: real, sqrt: real -> real)
    ensures Ratio(diff, se, sqrt) == if sqrt(se) == 0.0 then NotFinite else Number(diff / sqrt(se))
  {
  }

  lemma PooledZero(a: seq<int>, b: seq<int>)
    requires |a| >= 2 && |b| >= 2
    ensures Pooled(a, b) >= 0.0
    ensures Pooled(a, b) == 0.0 <==> Constant(a) && Constant(b)
  {
    hide *;
    var da, db := Deviations(a, Mean(a)), Deviations(b, Mean(b));
    VarianceZero(a);
    VarianceZero(b);
    VarianceIs(a);
    VarianceIs(b);
    ZeroProduct(Variance(a), (|a| - 1) as real, da);
    ZeroProduct(Variance(b), (|b| - 1) as real, db);
    PooledIs(a, b);
    SquaredErrorIs(da, db, |a|, |b|);
    ErrorZero(da, db, (|a| + |b| - 2) as real, |a| as real, |b| as real, Pooled(a, b));
  }

  lemma ErrorZero(da: real, db: real, d: real, m: real, n: real, p: real)
    requires 0.0 <= da && 0.0 <= db && d > 0.0 && m > 0.0 && n > 0.0 && p == (da + db) / d * (1.0 / m + 1.0 / n)
    ensures 0.0 <= p && (p == 0.0 <==> da == 0.0 && db == 0.0)
  {
    var f, q := 1.0 / m + 1.0 / n, (da + db) / d;
    assert f > 0.0 && q >= 0.0;
    assert q == 0.0 <==> da + db == 0.0;
    ZeroProduct(q, f, p);
  }

  lemma ZeroProduct(q: real, f: real, p: real)
    requires 0.0 <= q && 0.0 < f && p == q * f
    ensures 0.0 <= p && (p == 0.0 <==> q == 0.0)
  {
  }

  /** T is a number exactly when one of the samples varies. */
  lemma FiniteExactlyWhenVarying(a: seq<int>, b: seq<int>, sqrt: real -> real)
    requires |a| >= 2 && |b| >= 2 && IsSqrt(sqrt)
    ensures TValue(a, b, sqrt).NotFinite? <==> Constant(a) && Constant(b)
  {
    hide *;
    PooledZero(a, b);
    TValueIs(a, b, sqrt);
    RatioIs(Mean(a) - Mean(b), Pooled(a, b), sqrt);
    RootZero(Pooled(a, b), sqrt);
  }

  lemma RootZero(p: real, sqrt: real -> real)
    requires IsSqrt(sqrt) && 0.0 <= p
    ensures sqrt(p) == 0.0 <==> p == 0.0
  {
    SquareZero(sqrt(p), p);
  }

  function Negated(t: Float): Float {
    match t case Number(x) => Number(-x) case NotFinite => NotFinite
  }

  lemma TValueSwaps(a: seq<int>, b: seq<int>, sqrt: real -> real)
    requires |a| >= 2 && |b| >= 2
    ensures TValue(b, a, sqrt) == Negated(TValue(a, b, sqrt))
  {
    hide *;
    PooledIs(a, b);
    PooledIs(b, a);
    SquaredErrorSwaps(Deviations(a, Mean(a)), Deviations(b, Mean(b)), |a|, |b|);
    TValueIs(a, b, sqrt);
    TValueIs(b, a, sqrt);
    RatioNegates(Mean(a) - Mean(b), Pooled(a, b), sqrt);
  }

  lemma PooledIs(a: seq<int>, b: seq<int>)
    requires |a| >= 2 && |b| >= 2
    ensures Pooled(a, b) == SquaredError(Deviations(a, Mean(a)), Deviations(b, Mean(b)), |a|, |b|)
  {
  }

  lemma TValueIs(a: seq<int>, b: seq<int>, sqrt: real -> real)
    requires |a| >= 2 && |b| >= 2
    ensures TValue(a, b, sqrt) == Ratio(Mean(a) - Mean(b), Pooled(a, b), sqrt)
  {
  }

  lemma SquaredErrorSwaps(da: real, db: real, m: nat, n: nat)
    requires m >= 2 && n >= 2
    ensures SquaredError(db, da, n, m) == SquaredError(da, db, m, n)
  {
  }

  lemma RatioNegates(d: real, se: real, sqrt: real -> real)
    ensures Ratio(-d, se, sqrt) == Negated(Ratio(d, se, sqrt))
  {
  }

  // ---------------------------------------------------------------- change of time unit

  function Rescaled(s: seq<int>, scale: int, shift: int): (r: seq<int>)
    ensures |r| == |s| && forall i :: 0 <= i < |s| ==> r[i] == scale * s[i] + shift
  {
    seq(|s|, i requires 0 <= i < |s| => scale * s[i] + shift)
  }

  lemma {:induction false} RescaledTotal(s: seq<int>, scale: int, shift: int)
    ensures Total(Rescaled(s, scale, shift)) == scale * Total(s) + shift * |s|
  {
    if s == [] {
    } else {
      var rest := s[..|s| - 1];
      RescaledTotal(rest, scale, shift);
      assert Rescaled(s, scale, shift)[..|s| - 1] == Rescaled(rest, scale, shift);
      assert scale * (Total(rest) + s[|s| - 1]) == scale * Total(rest) + scale * s[|s| - 1];
    }
  }

  lemma {:induction false} RescaledDeviations(s: seq<int>, scale: int, shift: int, k: real, kk: real, c: real, c': real)
    requires k == scale as real && kk == k * k && c' == k * c + shift as real
    ensures Deviations(Rescaled(s, scale, shift), c') == kk * Deviations(s, c)
  {
    hide *;
    if s == [] {
      NoDeviations(c, c', kk, Rescaled(s, scale, shift));
    } else {
      var rest, x, r := s[..|s| - 1], s[|s| - 1], Rescaled(s, scale, shift);
      var r' := Rescaled(rest, scale, shift);
      RescaledPrefix(s, scale, shift);
      CastProduct(scale, x);
      DeviationsStep(s, c);
      DeviationsStep(r, c');
      RescaledDeviations(rest, scale, shift, k, kk, c, c');
      RescaledStep(k, kk, shift as real, x as real, r[|s| - 1] as real, c, c',
                   Deviations(rest, c), Deviations(s, c), Deviations(r', c'), Deviations(r, c'));
    }
  }

  lemma NoDeviations(c: real, c': real, kk: real, r: seq<int>)
    requires |r| == 0
    ensures Deviations(r, c') == 0.0 == kk * Deviations([], c)
  {
  }

  lemma RescaledPrefix(s: seq<int>, scale: int, shift: int)
    requires s != []
    ensures Rescaled(s, scale, shift)[..|s| - 1] == Rescaled(s[..|s| - 1], scale, shift)
    ensures Rescaled(s, scale, shift)[|s| - 1] == scale * s[|s| - 1] + shift
  {
  }

  lemma DeviationsStep(s: seq<int>, c: real)
    requires s != []
    ensures Deviations(s, c) == Deviations(s[..|s| - 1], c) + Square(s[|s| - 1] as real - c)
  {
  }

  lemma CastProduct(a: int, b: int)
    ensures (a * b) as real == a as real * b as real
  {
  }

  function Square(x: real): real { x * x }

  lemma RescaledStep(k: real, kk: real, h: real, x: real, x': real, c: real, c': real,
                     before: real, after: real, before': real, after': real)
    requires kk == k * k && x' == k * x + h && c' == k * c + h && before' == kk * before
    requires after == before + Square(x - c) && after' == before' + Square(x' - c')
    ensures after' == kk * after
  {
    var d := x - c;
    assert x' - c' == k * d;
    assert Square(k * d) == kk * Square(d);
  }

  lemma RescaledMean(s: seq<int>, scale: int, shift: int)
    requires s != []
    ensures Mean(Rescaled(s, scale, shift)) == scale as real * Mean(s) + shift as real
  {
    RescaledTotal(s, scale, shift);
    CastProduct(scale, Total(s));
    CastProduct(shift, |s|);
    MeanScales(scale as real, shift as real, Total(s) as real, |s| as real, Mean(s),
               Total(Rescaled(s, scale, shift)) as real, Mean(Rescaled(s, scale, shift)));
  }

  lemma MeanScales(k: real, h: real, total: real, n: real, mean: real, total': real, mean': real)
    requires n > 0.0 && mean == total / n && mean' == total' / n && total' == k * total + h * n
    ensures mean' == k * mean + h
  {
    assert mean * n == total && mean' * n == total';
    assert (k * mean + h) * n == total';
    assert (mean' - (k * mean + h)) * n == 0.0;
  }

  /** Measuring both traces in another unit and from another origin leaves T as it is. */
  lemma TValueUnitFree(a: seq<int>, b: seq<int>, scale: int, shift: int, sqrt: real -> real)
    requires |a| >= 2 && |b| >= 2 && scale > 0 && IsSqrt(sqrt)
    ensures TValue(Rescaled(a, scale, shift), Rescaled(b, scale, shift), sqrt) == TValue(a, b, sqrt)
  {
    hide *;
    var k, a', b' := scale as real, Rescaled(a, scale, shift), Rescaled(b, scale, shift);
    TValueIs(a, b, sqrt);
    TValueIs(a', b', sqrt);
    RescaledMean(a, scale, shift);
    RescaledMean(b, scale, shift);
    PooledZero(a, b);
    PooledZero(a', b');
    PooledRescaled(a, b, scale, shift, k, k * k);
    DifferenceScales(k, shift as real, Mean(a), Mean(b));
    RatioScales(k, Mean(a) - Mean(b), Mean(a') - Mean(b'), Pooled(a, b), Pooled(a', b'), sqrt);
  }

  lemma DifferenceScales(k: real, h: real, x: real, y: real)
    ensures k * x + h - (k * y + h) == k * (x - y)
  {
  }

  lemma PooledRescaled(a: seq<int>, b: seq<int>, scale: int, shift: int, k: real, kk: real)
    requires |a| >= 2 && |b| >= 2 && k == scale as real && kk == k * k
    ensures Pooled(Rescaled(a, scale, shift), Rescaled(b, scale, shift)) == kk * Pooled(a, b)
  {
    hide *;
    var a', b' := Rescaled(a, scale, shift), Rescaled(b, scale, shift);
    RescaledMean(a, scale, shift);
    RescaledMean(b, scale, shift);
    RescaledDeviations(a, scale, shift, k, kk, Mean(a), Mean(a'));
    RescaledDeviations(b, scale, shift, k, kk, Mean(b), Mean(b'));
    PooledIs(a, b);
    PooledIs(a', b');
    SquaredErrorScales(kk, Deviations(a, Mean(a)), Deviations(b, Mean(b)), Deviations(a', Mean(a')), Deviations(b', Mean(b')),
                       |a|, |b|);
  }

  lemma SquaredErrorScales(kk: real, da: real, db: real, da': real, db': real, m: nat, n: nat)
    requires m >= 2 && n >= 2 && da' == kk * da && db' == kk * db
    ensures SquaredError(da', db', m, n) == kk * SquaredError(da, db, m, n)
  {
    QuotientScales(kk, da + db, da' + db', (m + n - 2) as real);
    var f, q := 1.0 / m as real + 1.0 / n as real, (da + db) / (m + n - 2) as real;
    assert kk * q * f == kk * (q * f);
  }

  lemma QuotientScales(kk: real, d: real, d': real, n: real)
    requires n > 0.0 && d' == kk * d
    ensures d' / n == kk * (d / n)
  {
    var q, q' := d / n, d' / n;
    assert q * n == d && q' * n == d';
    assert (q' - kk * q) * n == 0.0;
  }

  lemma RatioScales(k: real, d: real, kd: real, p: real, kp: real, sqrt: real -> real)
    requires k > 0.0 && 0.0 <= p && 0.0 <= kp && kp == k * k * p && kd == k * d && IsSqrt(sqrt)
    ensures Ratio(kd, kp, sqrt) == Ratio(d, p, sqrt)
  {
    var r, r' := sqrt(p), sqrt(kp);
    assert r * r == p && r' * r' == kp && 0.0 <= r && 0.0 <= r';
    assert r' == k * r by {
      assert k * r * (k * r) == k * k * (r * r);
      SquareOrder(r', k * r);
    }
    if r != 0.0 {
      var q := d / r;
      assert q * r == d;
      assert q * (k * r) == k * d;
      assert k * r != 0.0;
    }
  }

  // ---------------------------------------------------------------- the distribution function

  method TDistributionCDF(v: int, x: real, sqrt: real -> real) returns (p: real)
    requires Even(v) && IsSqrt(sqrt)
    ensures p == CdfAt(v, x, sqrt)
    ensures 0.0 <= x ==> 0.5 <= p < 1.0
  {
    hide Pow, Series, B, Shrink, Cdf;
    var root := sqrt(v as real + x * x);
    RootExists(v, x, sqrt);
    var t := x / (2.0 * root);
    ghost var u := Shrink(v, x);
    var sum1, bj := 0.0, 1.0;
    BNext(0);
    for j := 0 to (v - 2) / 2 + 1
      invariant bj == B(j)
      invariant sum1 == if j == 0 then 0.0 else Series(j - 1, u)
    {
      SumStep(v, x, j, bj);
      BNext(j);
      sum1 := sum1 + bj / Pow(1.0 + x * x / v as real, j);
      bj := bj * ((2 * j + 1) as real / (2 * j + 2) as real);
    }
    p := 0.5 + t * sum1;
    CdfIs(v, x, root);
    if 0.0 <= x { CdfRange(v, x, root); }
  }

  lemma BNext(j: nat)
    ensures B(0) == 1.0 && B(j + 1) == B(j) * ((2 * j + 1) as real / (2 * j + 2) as real)
  {
  }

  lemma CdfIs(v: int, x: real, r: real)
    requires Even(v) && r > 0.0
    ensures Cdf(v, x, r) == 0.5 + x / (2.0 * r) * Series(Terms(v), Shrink(v, x))
  {
  }

  /** The summand of the loop is the next term of the series. */
  lemma SumStep(v: int, x: real, j: nat, b: real)
    requires v > 0 && b == B(j)
    ensures 1.0 + x * x / v as real > 0.0 && Pow(1.0 + x * x / v as real, j) > 0.0
    ensures (if j == 0 then 0.0 else Series(j - 1, Shrink(v, x))) + b / Pow(1.0 + x * x / v as real, j)
            == Series(j, Shrink(v, x))
  {
    var y := 1.0 + x * x / v as real;
    ShrinkIs(v as real, x * x);
    assert Shrink(v, x) == 1.0 / y;
    PowReciprocal(y, j);
    var p := Pow(y, j);
    assert b / p == b * (1.0 / p);
    if j == 0 { assert p == 1.0; }
  }

  lemma RootExists(v: int, x: real, sqrt: real -> real)
    requires v > 0 && IsSqrt(sqrt)
    ensures IsRoot(v, x, sqrt(v as real + x * x))
  {
    var y := v as real + x * x;
    assert 0.0 <= x * x;
    var r := sqrt(y);
    assert 0.0 <= r && r * r == y;
  }

  lemma ShrinkIs(v: real, xx: real)
    requires v > 0.0 && xx >= 0.0
    ensures 1.0 + xx / v > 0.0 && v / (v + xx) == 1.0 / (1.0 + xx / v)
  {
    var y, z := 1.0 + xx / v, v + xx;
    var q := v / z;
    assert q * z == v;
    assert y * v == z by { assert xx / v * v == xx; }
    Reciprocal(q, y, z, v);
  }

  lemma Reciprocal(q: real, y: real, z: real, v: real)
    requires v > 0.0 && z > 0.0 && q * z == v && y * v == z
    ensures y > 0.0 && q == 1.0 / y
  {
    assert y > 0.0 by { if y <= 0.0 { MulMonotone(y, 0.0, v); } }
    assert (q * y - 1.0) * v == 0.0 by { assert q * y * v == q * (y * v); }
    assert q * y == 1.0;
  }

  // ---------------------------------------------------------------- the whole comparison

  /** Sample sizes after dropping the first run, and one more of the larger sample if their sum is odd. */
  function Trimmed(n1: nat, n2: nat): (nat, nat)
    requires n1 > 10 && n2 > 10
  {
    if (n1 + n2) % 2 == 0 then (n1 - 1, n2 - 1)
    else if n1 > n2 then (n1 - 2, n2 - 1)
    else (n1 - 1, n2 - 2)
  }

  /** Trimming keeps at least ten samples of each, in bounds, drops at most one extra, and leaves an even freedom. */
  lemma TrimmedSizes(n1: nat, n2: nat)
    requires n1 > 10 && n2 > 10
    ensures var (m1, m2) := Trimmed(n1, n2);
            && 10 <= m1 < n1 && 10 <= m2 < n2
            && n1 + n2 - 3 <= m1 + m2 <= n1 + n2 - 2
            && Even(m1 + m2 - 2) && 18 <= m1 + m2 - 2
            && Trimmed(n2, n1) == (m2, m1)
  {
  }

  datatype Report =
    | TooFew
    | Report(result: TTestResult, freedom: int, p: Float, different: bool)

  function Abs(x: real): real { if x < 0.0 then -x else x }

  /** The probability for |t|: undefined when t is, since infinity divided by infinity is. */
  function Probability(v: int, t: Float, sqrt: real -> real): Float
    requires Even(v) && IsSqrt(sqrt)
  {
    match t
    case NotFinite => NotFinite
    case Number(x) => Number(CdfAt(v, Abs(x), sqrt))
  }

  function CdfAt(v: int, x: real, sqrt: real -> real): real
    requires Even(v) && IsSqrt(sqrt)
  {
    RootExists(v, x, sqrt);
    Cdf(v, x, sqrt(v as real + x * x))
  }

  lemma CdfAtRange(v: int, x: real, sqrt: real -> real)
    requires Even(v) && IsSqrt(sqrt) && 0.0 <= x
    ensures 0.5 <= CdfAt(v, x, sqrt) < 1.0
  {
    RootExists(v, x, sqrt);
    CdfRange(v, x, sqrt(v as real + x * x));
  }

  lemma CdfAtIncreases(v: int, x: real, y: real, sqrt: real -> real)
    requires Even(v) && IsSqrt(sqrt) && x < y
    ensures CdfAt(v, x, sqrt) < CdfAt(v, y, sqrt)
  {
    RootExists(v, x, sqrt);
    RootExists(v, y, sqrt);
    CdfStrictlyIncreasing(v, x, y, sqrt(v as real + x * x), sqrt(v as real + y * y));
  }

  function ReportOn(a: seq<int>, b: seq<int>, sqrt: real -> real): Report
    requires |a| >= 2 && |b| >= 2 && (|a| + |b|) % 2 == 0 && IsSqrt(sqrt)
  {
    var t := TValue(a, b, sqrt);
    var p := Probability(|a| + |b| - 2, t, sqrt);
    Report(TTestResult(Mean(a), Mean(b), sqrt(Variance(a)), sqrt(Variance(b)), t), |a| + |b| - 2, p,
           p.Number? && p.value > 0.99995)
  }

  /** The samples that are compared: without the first, and with an even total. */
  function Kept(trace1: seq<int>, trace2: seq<int>): (kept: (seq<int>, seq<int>))
    requires |trace1| > 10 && |trace2| > 10
    ensures |kept.0| >= 10 && |kept.1| >= 10 && (|kept.0| + |kept.1|) % 2 == 0
    ensures kept.0 <= trace1[1..] && kept.1 <= trace2[1..]
    ensures |trace1| + |trace2| - 3 <= |kept.0| + |kept.1|
    ensures |trace1| <= |trace2| ==> kept.0 == trace1[1..]
    ensures |trace2| <= |trace1| ==> kept.1 == trace2[1..]
  {
    var (n1, n2) := Trimmed(|trace1|, |trace2|);
    (trace1[1..n1 + 1], trace2[1..n2 + 1])
  }

  function Comparison(trace1: seq<int>, trace2: seq<int>, sqrt: real -> real): Report
    requires IsSqrt(sqrt)
  {
    if |trace1| <= 10 || |trace2| <= 10 then TooFew
    else
      var (a, b) := Kept(trace1, trace2);
      ReportOn(a, b, sqrt)
  }

  method CompareTraces(trace1: seq<int>, trace2: seq<int>, sqrt: real -> real) returns (report: Report)
    requires IsSqrt(sqrt)
    ensures report == Comparison(trace1, trace2, sqrt)
    ensures report.Report? ==> (report.different <==> report.p.Number? && 2.0 * (1.0 - report.p.value) < 0.0001)
  {
    hide TValue, Mean, Variance, CdfAt, IsSqrt;
    var n1, n2 := |trace1|, |trace2|;
    if n1 <= 10 || n2 <= 10 {
      return TooFew;
    }
    n1 := n1 - 1;
    n2 := n2 - 1;
    if (n1 + n2) % 2 != 0 {
      if n1 > n2 {
        n1 := n1 - 1;
      } else {
        n2 := n2 - 1;
      }
    }
    var tresult := CalcTValue(trace1[1..1 + n1], trace2[1..1 + n2], sqrt);
    var freedom := n1 + n2 - 2;
    var p := NotFinite;
    if tresult.tvalue.Number? {
      var c := TDistributionCDF(freedom, Abs(tresult.tvalue.value), sqrt);
      p := Number(c);
    }
    report := Report(tresult, freedom, p, p.Number? && p.value > 0.99995);
  }

  function Exchanged(r: Report): Report {
    match r
    case TooFew => TooFew
    case Report(TTestResult(m1, m2, s1, s2, t), v, p, d) => Report(TTestResult(m2, m1, s2, s1, Negated(t)), v, p, d)
  }

  /** Exchanging the traces negates T and changes neither the probability nor the verdict. */
  lemma ComparisonExchanges(trace1: seq<int>, trace2: seq<int>, sqrt: real -> real)
    requires IsSqrt(sqrt)
    ensures Comparison(trace2, trace1, sqrt) == Exchanged(Comparison(trace1, trace2, sqrt))
  {
    if |trace1| > 10 && |trace2| > 10 {
      var (n1, n2) := Trimmed(|trace1|, |trace2|);
      TrimmedSizes(|trace1|, |trace2|);
      var a, b := trace1[1..n1 + 1], trace2[1..n2 + 1];
      ReportExchanges(a, b, sqrt);
    }
  }

  lemma ReportExchanges(a: seq<int>, b: seq<int>, sqrt: real -> real)
    requires |a| >= 2 && |b| >= 2 && (|a| + |b|) % 2 == 0 && IsSqrt(sqrt)
    ensures ReportOn(b, a, sqrt) == Exchanged(ReportOn(a, b, sqrt))
  {
    hide TValue, Mean, Variance, CdfAt, IsSqrt;
    TValueSwaps(a, b, sqrt);
    var t := TValue(a, b, sqrt);
    if t.Number? { assert Abs(-t.value) == Abs(t.value); }
  }

  /** Measuring in another unit and from another origin changes neither T, the probability nor the verdict. */
  lemma ComparisonUnitFree(trace1: seq<int>, trace2: seq<int>, scale: int, shift: int, sqrt: real -> real)
    requires scale > 0 && IsSqrt(sqrt)
    ensures var r, r' := Comparison(trace1, trace2, sqrt),
                         Comparison(Rescaled(trace1, scale, shift), Rescaled(trace2, scale, shift), sqrt);
            (r.TooFew? && r'.TooFew?) ||
            (r.Report? && r'.Report? && r'.result.tvalue == r.result.tvalue && r'.freedom == r.freedom
             && r'.p == r.p && r'.different == r.different)
  {
    hide TValue, Mean, Variance, CdfAt, IsSqrt;
    if |trace1| > 10 && |trace2| > 10 {
      var (n1, n2) := Trimmed(|trace1|, |trace2|);
      TrimmedSizes(|trace1|, |trace2|);
      var a, b := trace1[1..n1 + 1], trace2[1..n2 + 1];
      assert Rescaled(trace1, scale, shift)[1..n1 + 1] == Rescaled(a, scale, shift);
      assert Rescaled(trace2, scale, shift)[1..n2 + 1] == Rescaled(b, scale, shift);
      TValueUnitFree(a, b, scale, shift, sqrt);
    }
  }

  /**
   The printed significance 2 (1 - p) lies in (0, 1] exactly when some kept sample varies. Two
   constant samples have no p, and are never reported as different whatever their means.
   */
  lemma SignificanceRange(a: seq<int>, b: seq<int>, sqrt: real -> real)
    requires |a| >= 2 && |b| >= 2 && (|a| + |b|) % 2 == 0 && IsSqrt(sqrt)
    ensures var r := ReportOn(a, b, sqrt);
            && (r.p.Number? && 0.0 < 2.0 * (1.0 - r.p.value) <= 1.0 <==> !(Constant(a) && Constant(b)))
            && (Constant(a) && Constant(b) ==> !r.different)
  {
    hide TValue, Mean, Variance, CdfAt, IsSqrt, Constant;
    FiniteExactlyWhenVarying(a, b, sqrt);
    var t := TValue(a, b, sqrt);
    if t.Number? { CdfAtRange(|a| + |b| - 2, Abs(t.value), sqrt); }
  }

  /** The same for whole traces, of which at least eleven runs each are needed. */
  lemma ComparisonSignificance(trace1: seq<int>, trace2: seq<int>, sqrt: real -> real)
    requires IsSqrt(sqrt)
    ensures var r := Comparison(trace1, trace2, sqrt);
            && (r.TooFew? <==> |trace1| <= 10 || |trace2| <= 10)
            && (!r.TooFew? ==>
                 var (a, b) := Kept(trace1, trace2);
                 && (r.p.Number? && 0.0 < 2.0 * (1.0 - r.p.value) <= 1.0 <==> !(Constant(a) && Constant(b)))
                 && (Constant(a) && Constant(b) ==> !r.different))
  {
    hide Constant, IsSqrt, ReportOn;
    if |trace1| > 10 && |trace2| > 10 {
      var (a, b) := Kept(trace1, trace2);
      ReportHolds(a, b, sqrt);
      SignificanceRange(a, b, sqrt);
    }
  }

  lemma ReportHolds(a: seq<int>, b: seq<int>, sqrt: real -> real)
    requires |a| >= 2 && |b| >= 2 && (|a| + |b|) % 2 == 0 && IsSqrt(sqrt)
    ensures ReportOn(a, b, sqrt).Report? && ReportOn(a, b, sqrt).result.mean1 == Mean(a) && ReportOn(a, b, sqrt).result.mean2 == Mean(b)
  {
  }

  /** Two traces that are always x and always y have those means, and are not reported as different. */
  lemma ConstantTraces(trace1: seq<int>, trace2: seq<int>, x: int, y: int, sqrt: real -> real)
    requires |trace1| > 10 && |trace2| > 10 && IsSqrt(sqrt)
    requires (forall i :: 0 <= i < |trace1| ==> trace1[i] == x) && (forall i :: 0 <= i < |trace2| ==> trace2[i] == y)
    ensures var r := Comparison(trace1, trace2, sqrt);
            r.Report? && r.result.mean1 == x as real && r.result.mean2 == y as real && r.p.NotFinite? && !r.different
  {
    hide Mean, ReportOn, IsSqrt, Constant;
    var (a, b) := Kept(trace1, trace2);
    MeanOfConstant(a, x);
    MeanOfConstant(b, y);
    ReportHolds(a, b, sqrt);
    ConstantReport(a, b, sqrt);
  }

  lemma ConstantReport(a: seq<int>, b: seq<int>, sqrt: real -> real)
    requires |a| >= 2 && |b| >= 2 && (|a| + |b|) % 2 == 0 && IsSqrt(sqrt) && Constant(a) && Constant(b)
    ensures var r := ReportOn(a, b, sqrt); r.Report? && r.p.NotFinite? && !r.different
  {
    FiniteExactlyWhenVarying(a, b, sqrt);
    hide TValue, Mean, Variance, CdfAt, IsSqrt, Constant;
  }

  lemma MeanOfConstant(s: seq<int>, x: int)
    requires s != [] && forall i :: 0 <= i < |s| ==> s[i] == x
    ensures Constant(s) && Mean(s) == x as real
  {
    TotalOfConstant(s);
    hide Total;
    CastProduct(|s|, x);
  }

  /** With equal freedom, the probabilities are ordered as the magnitudes of the two statistics. */
  lemma ProbabilityOrder(v: int, s: real, t: real, sqrt: real -> real)
    requires Even(v) && IsSqrt(sqrt)
    ensures Probability(v, Number(s), sqrt).value < Probability(v, Number(t), sqrt).value <==> Abs(s) < Abs(t)
  {
    hide CdfAt;
    if Abs(s) < Abs(t) {
      CdfAtIncreases(v, Abs(s), Abs(t), sqrt);
    } else if Abs(t) < Abs(s) {
      CdfAtIncreases(v, Abs(t), Abs(s), sqrt);
    }
  }

  /**
   Whatever the traces, they are reported as different exactly when the significance that is printed,
   2 (1 - p), is below the level that the message names, one in ten thousand.
   */
  lemma DifferentBelowLevel(trace1: seq<int>, trace2: seq<int>, sqrt: real -> real)
    requires IsSqrt(sqrt)
    ensures var r := Comparison(trace1, trace2, sqrt);
            r.Report? ==>
            && (r.different <==> r.p.Number? && 2.0 * (1.0 - r.p.value) < 0.0001)
            && var (a, b) := Kept(trace1, trace2);
               r.freedom == |a| + |b| - 2 && r.p == Probability(r.freedom, r.result.tvalue, sqrt)
  {
    hide TValue, Mean, Variance, CdfAt, IsSqrt;
  }

  /** With equal freedom, a larger |T| has the larger p and never loses the verdict. */
  lemma LargerTKeepsVerdict(trace1: seq<int>, trace2: seq<int>, other1: seq<int>, other2: seq<int>, sqrt: real -> real)
    requires IsSqrt(sqrt)
    ensures var r, r' := Comparison(trace1, trace2, sqrt), Comparison(other1, other2, sqrt);
            (r.Report? && r'.Report? && r.freedom == r'.freedom && r.result.tvalue.Number? && r'.result.tvalue.Number?
             && Abs(r.result.tvalue.value) <= Abs(r'.result.tvalue.value)) ==>
            r.p.Number? && r'.p.Number? && r.p.value <= r'.p.value && (r.different ==> r'.different)
  {
    hide TValue, Mean, Variance, CdfAt, IsSqrt, Kept, Abs;
    if |trace1| > 10 && |trace2| > 10 && |other1| > 10 && |other2| > 10 {
      var (a, b) := Kept(trace1, trace2);
      var (a', b') := Kept(other1, other2);
      var t, t' := TValue(a, b, sqrt), TValue(a', b', sqrt);
      if t.Number? && t'.Number? && |a| + |b| == |a'| + |b'| {
        ProbabilityOrder(|a| + |b| - 2, t'.value, t.value, sqrt);
      }
    }
  }
}
