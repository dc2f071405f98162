/**
 Cosine similarity of two tensors, following qcom/model_test/accuracy_metrics.py, over exact reals and
 with the square root as a parameter.
 */
module CosineSimilarity {
  import opened RealAnalysis
  import opened Wrappers

  /** An entry of a flattened tensor. */
  datatype Entry = Finite(value: real) | NaN | PosInf | NegInf

  function NanToNum(e: Entry): real { if e.Finite? then e.value else 0.0 }

  function Cleaned(v: seq<Entry>): (r: seq<real>)
    ensures |r| == |v| && forall i :: 0 <= i < |v| ==> r[i] == NanToNum(v[i])
  {
    seq(|v|, i requires 0 <= i < |v| => NanToNum(v[i]))
  }

  function Dot(a: seq<real>, b: seq<real>): real
    requires |a| == |b|
  {
    if a == [] then 0.0 else a[0] * b[0] + Dot(a[1..], b[1..])
  }

  function Norm(sqrt: real -> real, a: seq<real>): real { sqrt(Dot(a, a)) }

  function Scaled(c: real, a: seq<real>): (r: seq<real>)
    ensures |r| == |a| && forall i :: 0 <= i < |a| ==> r[i] == c * a[i]
  {
    seq(|a|, i requires 0 <= i < |a| => c * a[i])
  }

  function Divided(a: seq<real>, d: real): (r: seq<real>)
    requires d != 0.0
    ensures |r| == |a| && forall i :: 0 <= i < |a| ==> r[i] == a[i] / d
  {
    seq(|a|, i requires 0 <= i < |a| => a[i] / d)
  }

  /** None where the source raises ValueError. */
  function Similarity(sqrt: real -> real, actual: seq<Entry>, expected: seq<Entry>): Option<real> {
    if |actual| != |expected| then None
    else Some(Cosine(sqrt, Cleaned(actual), Cleaned(expected)))
  }

  function Cosine(sqrt: real -> real, a: seq<real>, b: seq<real>): real
    requires |a| == |b|
  {
    var m, n := Norm(sqrt, a), Norm(sqrt, b);
    if m == 0.0 || n == 0.0 then 0.0
    else
      var u, v := Divided(a, m), Divided(b, n);
      var num, denom := Dot(u, v), Norm(sqrt, u) * Norm(sqrt, v);
      if denom == 0.0 then 0.0 else num / denom
  }

  // ---------------------------------------------------------------- dot products

  lemma {:induction false} DotSymmetric(a: seq<real>, b: seq<real>)
    requires |a| == |b|
    ensures Dot(a, b) == Dot(b, a)
  {
    if a == [] {
    } else {
      DotSymmetric(a[1..], b[1..]);
    }
  }

  lemma DotEmpty(a: seq<real>, b: seq<real>)
    requires |a| == |b| == 0
    ensures Dot(a, b) == Dot(a, a) == Dot(b, b) == 0.0
  {
  }

  lemma DotStep(a: seq<real>, b: seq<real>)
    requires |a| == |b| > 0
    ensures Dot(a, b) == a[0] * b[0] + Dot(a[1..], b[1..])
  {
  }

  lemma ScaledTail(c: real, a: seq<real>)
    requires a != []
    ensures Scaled(c, a)[1..] == Scaled(c, a[1..])
  {
    forall i | 0 <= i < |a| - 1 ensures Scaled(c, a)[1..][i] == Scaled(c, a[1..])[i] { assert a[1..][i] == a[i + 1]; }
  }

  lemma {:induction false} DotScaled(c: real, a: seq<real>, b: seq<real>)
    requires |a| == |b|
    ensures Dot(Scaled(c, a), b) == c * Dot(a, b)
  {
    if a == [] {
    } else {
      var s := Scaled(c, a);
      ScaledTail(c, a);
      DotScaled(c, a[1..], b[1..]);
      DotStep(s, b);
      DotStep(a, b);
      assert s[0] == c * a[0];
      hide *;
      Distribute(c, a[0], b[0], Dot(a[1..], b[1..]));
    }
  }

  lemma Distribute(c: real, x: real, y: real, r: real)
    ensures c * x * y + c * r == c * (x * y + r)
  {
  }

  /** a - s * b, entry by entry */
  function Combined(a: seq<real>, s: real, b: seq<real>): (r: seq<real>)
    requires |a| == |b|
    ensures |r| == |a| && forall i :: 0 <= i < |a| ==> r[i] == a[i] - s * b[i]
  {
    seq(|a|, i requires 0 <= i < |a| => a[i] - s * b[i])
  }

  lemma CombinedTail(a: seq<real>, s: real, b: seq<real>)
    requires |a| == |b| > 0
    ensures Combined(a, s, b)[1..] == Combined(a[1..], s, b[1..]) && Combined(a, s, b)[0] == a[0] - s * b[0]
  {
    forall i | 0 <= i < |a| - 1 ensures Combined(a, s, b)[1..][i] == Combined(a[1..], s, b[1..])[i] {
      assert a[1..][i] == a[i + 1] && b[1..][i] == b[i + 1];
      assert Combined(a, s, b)[1..][i] == Combined(a, s, b)[i + 1];
    }
  }

  lemma {:induction false} DotCombined(a: seq<real>, s: real, b: seq<real>, t: real)
    requires |a| == |b| && s * s == 1.0 && t == s * Dot(a, b)
    ensures var d := Combined(a, s, b); Dot(d, d) == Dot(a, a) - 2.0 * t + Dot(b, b)
  {
    hide *;
    if a == [] {
      DotEmpty(a, b);
      DotEmpty(Combined(a, s, b), Combined(a, s, b));
    } else {
      var d, a', b' := Combined(a, s, b), a[1..], b[1..];
      var e, u := Combined(a', s, b'), s * Dot(a', b');
      CombinedTail(a, s, b);
      DotCombined(a', s, b', u);
      DotStep(d, d);
      DotStep(a, a);
      DotStep(a, b);
      DotStep(b, b);
      CombinedStep(a[0], b[0], s, d[0], Dot(a', b'), Dot(a, b), u, t);
    }
  }

  lemma CombinedStep(x: real, y: real, s: real, d: real, ab: real, sum: real, u: real, t: real)
    requires d == x - s * y && s * s == 1.0 && sum == x * y + ab && u == s * ab && t == s * sum
    ensures d * d - 2.0 * u == x * x - 2.0 * t + y * y
  {
    var w, p := s * y, x * y;
    assert d * d == x * x - 2.0 * (x * w) + w * w;
    assert w * w == (s * s) * (y * y) == y * y;
    assert x * w == s * p;
    assert t == s * p + u;
  }

  lemma {:induction false} SelfDot(a: seq<real>)
    ensures Dot(a, a) >= 0.0
    ensures Dot(a, a) == 0.0 <==> forall i :: 0 <= i < |a| ==> a[i] == 0.0
  {
    if a == [] {
    } else {
      SelfDot(a[1..]);
      DotStep(a, a);
      SquareZero(a[0], a[0] * a[0]);
      assert forall i :: 0 <= i < |a| - 1 ==> a[1..][i] == a[i + 1];
      assert forall i :: 1 <= i < |a| ==> a[i] == a[1..][i - 1];
      hide *;
    }
  }

  // ---------------------------------------------------------------- unit vectors

  lemma NormIs(sqrt: real -> real, a: seq<real>)
    requires IsSqrt(sqrt)
    ensures Norm(sqrt, a) >= 0.0 && Norm(sqrt, a) * Norm(sqrt, a) == Dot(a, a)
  {
    SelfDot(a);
  }

  lemma ScaledSelf(c: real, a: seq<real>)
    ensures Dot(Scaled(c, a), Scaled(c, a)) == c * (c * Dot(a, a))
  {
    hide *;
    var b := Scaled(c, a);
    assert |b| == |a|;
    DotScaled(c, a, b);
    DotSymmetric(a, b);
    DotScaled(c, a, a);
  }

  /** A vector divided by its norm has norm 1. */
  lemma UnitNorm(sqrt: real -> real, a: seq<real>, m: real, u: seq<real>)
    requires IsSqrt(sqrt) && m == Norm(sqrt, a) != 0.0 && u == Divided(a, m)
    ensures Dot(u, u) == 1.0 && Norm(sqrt, u) == 1.0
  {
    hide *;
    var c := 1.0 / m;
    NormIs(sqrt, a);
    DividedIsScaled(a, m);
    ScaledSelf(c, a);
    Reciprocal(m, Dot(a, a), c, Dot(u, u));
    NormIs(sqrt, u);
    UnitRoot(Norm(sqrt, u), Dot(u, u));
  }

  lemma Reciprocal(m: real, mm: real, c: real, p: real)
    requires m != 0.0 && mm == m * m && c == 1.0 / m && p == c * (c * mm)
    ensures p == 1.0
  {
    var e := c * m;
    assert e == 1.0;
    assert c * mm == e * m;
  }

  lemma UnitRoot(r: real, p: real)
    requires r >= 0.0 && p == r * r && p == 1.0
    ensures r == 1.0
  {
    SquareOrder(r, 1.0);
  }

  lemma DividedIsScaled(a: seq<real>, m: real)
    requires m != 0.0
    ensures Divided(a, m) == Scaled(1.0 / m, a)
  {
    forall i | 0 <= i < |a| ensures Divided(a, m)[i] == Scaled(1.0 / m, a)[i] { Quotient(a[i], m); }
  }

  lemma Quotient(x: real, m: real)
    requires m != 0.0
    ensures x / m == 1.0 / m * x
  {
  }

  lemma CosineIs(sqrt: real -> real, a: seq<real>, b: seq<real>)
    requires |a| == |b| && IsSqrt(sqrt) && Norm(sqrt, a) != 0.0 && Norm(sqrt, b) != 0.0
    ensures Cosine(sqrt, a, b) == Dot(Divided(a, Norm(sqrt, a)), Divided(b, Norm(sqrt, b)))
  {
    var u, v := Divided(a, Norm(sqrt, a)), Divided(b, Norm(sqrt, b));
    UnitNorm(sqrt, a, Norm(sqrt, a), u);
    UnitNorm(sqrt, b, Norm(sqrt, b), v);
    hide Norm, Dot;
    assert Norm(sqrt, u) * Norm(sqrt, v) == 1.0;
  }

  // ---------------------------------------------------------------- what the score means

  lemma UnitBound(u: seq<real>, v: seq<real>, s: real)
    requires |u| == |v| && Dot(u, u) == 1.0 && Dot(v, v) == 1.0 && (s == 1.0 || s == -1.0)
    ensures s * Dot(u, v) <= 1.0
    ensures s * Dot(u, v) == 1.0 <==> u == Scaled(s, v)
  {
    DotCombined(u, s, v, s * Dot(u, v));
    var d := Combined(u, s, v);
    SelfDot(d);
    hide Dot;
    assert (forall i :: 0 <= i < |d| ==> d[i] == 0.0) <==> u == Scaled(s, v) by {
      var w := Scaled(s, v);
      if forall i :: 0 <= i < |d| ==> d[i] == 0.0 {
        forall i | 0 <= i < |u| ensures u[i] == w[i] { assert d[i] == 0.0; }
      }
    }
  }

  /** The score is symmetric and lies between -1 and 1. */
  lemma SimilarityRange(sqrt: real -> real, actual: seq<Entry>, expected: seq<Entry>)
    requires IsSqrt(sqrt)
    ensures Similarity(sqrt, actual, expected) == Similarity(sqrt, expected, actual)
    ensures Similarity(sqrt, actual, expected).Some? <==> |actual| == |expected|
    ensures |actual| == |expected| ==> -1.0 <= Similarity(sqrt, actual, expected).value <= 1.0
  {
    if |actual| == |expected| { CosineRange(sqrt, Cleaned(actual), Cleaned(expected)); }
  }

  lemma CosineRange(sqrt: real -> real, a: seq<real>, b: seq<real>)
    requires IsSqrt(sqrt) && |a| == |b|
    ensures Cosine(sqrt, a, b) == Cosine(sqrt, b, a) && -1.0 <= Cosine(sqrt, a, b) <= 1.0
  {
    var m, n := Norm(sqrt, a), Norm(sqrt, b);
    if m != 0.0 && n != 0.0 {
      var u, v := Divided(a, m), Divided(b, n);
      CosineIs(sqrt, a, b);
      CosineIs(sqrt, b, a);
      DotSymmetric(u, v);
      UnitNorm(sqrt, a, m, u);
      UnitNorm(sqrt, b, n, v);
      UnitBound(u, v, 1.0);
      UnitBound(u, v, -1.0);
    }
  }

  lemma {:induction false} ZeroNorm(sqrt: real -> real, a: seq<real>)
    requires IsSqrt(sqrt)
    ensures Norm(sqrt, a) == 0.0 <==> forall i :: 0 <= i < |a| ==> a[i] == 0.0
  {
    NormIs(sqrt, a);
    SelfDot(a);
    SquareZero(Norm(sqrt, a), Dot(a, a));
  }

  lemma NormScaled(sqrt: real -> real, c: real, a: seq<real>, s: real, m: real)
    requires IsSqrt(sqrt) && (s == 1.0 || s == -1.0) && s * c > 0.0 && m == Norm(sqrt, a)
    ensures Norm(sqrt, Scaled(c, a)) == s * c * m
  {
    hide *;
    var b := Scaled(c, a);
    NormIs(sqrt, a);
    NormIs(sqrt, b);
    ScaledSelf(c, a);
    SignedRoot(s, c, m, Dot(a, a), Dot(b, b), Norm(sqrt, b));
  }

  lemma SignedRoot(s: real, c: real, m: real, mm: real, p: real, r: real)
    requires (s == 1.0 || s == -1.0) && s * c > 0.0 && m >= 0.0 && r >= 0.0
    requires mm == m * m && p == c * (c * mm) && p == r * r
    ensures r == s * c * m
  {
    var k := s * c;
    var q := k * m;
    assert k * k == c * c;
    assert q * q == (k * k) * mm == p;
    MulMonotone(0.0, m, k);
    assert q >= 0.0;
    SquareOrder(r, q);
  }

  lemma UnitScaled(c: real, a: seq<real>, s: real, m: real, k: real)
    requires (s == 1.0 || s == -1.0) && s * c > 0.0 && m > 0.0 && k == s * c * m && k > 0.0
    ensures Divided(Scaled(c, a), k) == Scaled(s, Divided(a, m))
  {
    forall i | 0 <= i < |a| ensures Divided(Scaled(c, a), k)[i] == Scaled(s, Divided(a, m))[i] {
      SignedQuotient(a[i], c, s, m, k);
    }
  }

  lemma SignedQuotient(x: real, c: real, s: real, m: real, k: real)
    requires (s == 1.0 || s == -1.0) && s * c > 0.0 && m > 0.0 && k == s * c * m && k > 0.0
    ensures c * x / k == s * (x / m)
  {
    var q := x / m;
    assert x == q * m;
    assert s * q * k == c * x by {
      assert s * q * k == (s * s) * (c * (q * m));
    }
  }

  /** Scaling one of the tensors by a positive number changes nothing, by a negative one only the sign. */
  lemma CosineScaled(sqrt: real -> real, c: real, a: seq<real>, b: seq<real>, s: real)
    requires IsSqrt(sqrt) && |a| == |b| && (s == 1.0 || s == -1.0) && s * c > 0.0
    ensures Cosine(sqrt, Scaled(c, a), b) == s * Cosine(sqrt, a, b)
  {
    hide *;
    var m, n := Norm(sqrt, a), Norm(sqrt, b);
    var k := s * c * m;
    assert |Scaled(c, a)| == |a|;
    NormScaled(sqrt, c, a, s, m);
    NormIs(sqrt, a);
    if m == 0.0 || n == 0.0 {
      ZeroScore(sqrt, a, b);
      ZeroScore(sqrt, Scaled(c, a), b);
    } else {
      PositiveProduct(s * c, m, k);
      UnitScaled(c, a, s, m, k);
      CosineIs(sqrt, a, b);
      CosineIs(sqrt, Scaled(c, a), b);
      DotScaled(s, Divided(a, m), Divided(b, n));
    }
  }

  /** A finite tensor, scaled. */
  function Times(c: real, v: seq<Entry>): seq<Entry>
    requires AllFinite(v)
  {
    seq(|v|, i requires 0 <= i < |v| => Finite(c * v[i].value))
  }

  predicate AllFinite(v: seq<Entry>) { forall i :: 0 <= i < |v| ==> v[i].Finite? }

  lemma SimilarityScaled(sqrt: real -> real, c: real, actual: seq<Entry>, expected: seq<Entry>)
    requires IsSqrt(sqrt) && |actual| == |expected| && AllFinite(actual) && c != 0.0
    ensures Similarity(sqrt, Times(c, actual), expected).value
            == (if c > 0.0 then 1.0 else -1.0) * Similarity(sqrt, actual, expected).value
  {
    forall i | 0 <= i < |actual| ensures Cleaned(Times(c, actual))[i] == Scaled(c, Cleaned(actual))[i] {}
    assert Cleaned(Times(c, actual)) == Scaled(c, Cleaned(actual));
    hide Cosine, Cleaned, Times, Scaled;
    CosineScaled(sqrt, c, Cleaned(actual), Cleaned(expected), if c > 0.0 then 1.0 else -1.0);
  }

  ghost predicate Nonzero(a: seq<real>) { exists i :: 0 <= i < |a| && a[i] != 0.0 }

  /** The score is 1 exactly when one cleaned tensor is a positive multiple of the other, and not zero. */
  lemma OneExactlyForMultiples(sqrt: real -> real, a: seq<real>, b: seq<real>)
    requires IsSqrt(sqrt) && |a| == |b|
    ensures Cosine(sqrt, a, b) == 1.0 <==> Nonzero(b) && exists c :: c > 0.0 && a == Scaled(c, b)
  {
    hide Cosine, Norm, Dot;
    ZeroNorm(sqrt, a);
    ZeroNorm(sqrt, b);
    if Cosine(sqrt, a, b) == 1.0 {
      ZeroScore(sqrt, a, b);
      var m, n := Norm(sqrt, a), Norm(sqrt, b);
      var u, v := Divided(a, m), Divided(b, n);
      CosineIs(sqrt, a, b);
      UnitNorm(sqrt, a, m, u);
      UnitNorm(sqrt, b, n, v);
      UnitBound(u, v, 1.0);
      NormIs(sqrt, a);
      NormIs(sqrt, b);
      MultipleOf(a, b, m, n);
    }
    if Nonzero(b) && exists c :: c > 0.0 && a == Scaled(c, b) {
      var c :| c > 0.0 && a == Scaled(c, b);
      CosineScaled(sqrt, c, b, b, 1.0);
      CosineIs(sqrt, b, b);
      UnitNorm(sqrt, b, Norm(sqrt, b), Divided(b, Norm(sqrt, b)));
    }
  }

  lemma ZeroScore(sqrt: real -> real, a: seq<real>, b: seq<real>)
    requires |a| == |b|
    ensures Norm(sqrt, a) == 0.0 || Norm(sqrt, b) == 0.0 ==> Cosine(sqrt, a, b) == 0.0
  {
  }

  lemma MultipleOf(a: seq<real>, b: seq<real>, m: real, n: real)
    requires |a| == |b| && m > 0.0 && n > 0.0 && Divided(a, m) == Scaled(1.0, Divided(b, n))
    ensures exists c :: c > 0.0 && a == Scaled(c, b)
  {
    var c := m / n;
    Ratio(0.0, 0.0, m, n, c);
    forall i | 0 <= i < |a| ensures a[i] == Scaled(c, b)[i] {
      MultipleAt(a, b, m, n, c, i);
    }
    assert a == Scaled(c, b);
  }

  lemma MultipleAt(a: seq<real>, b: seq<real>, m: real, n: real, c: real, i: nat)
    requires |a| == |b| && m > 0.0 && n > 0.0 && Divided(a, m) == Scaled(1.0, Divided(b, n)) && c == m / n && i < |a|
    ensures a[i] == Scaled(c, b)[i]
  {
    assert Divided(a, m)[i] == Scaled(1.0, Divided(b, n))[i];
    hide *;
    Ratio(a[i], b[i], m, n, c);
  }

  lemma Ratio(x: real, y: real, m: real, n: real, c: real)
    requires m > 0.0 && n > 0.0 && c == m / n && x / m == 1.0 * (y / n)
    ensures x == c * y && c > 0.0
  {
    var q := y / n;
    assert y == q * n && x == q * m && m == c * n;
    assert q * (c * n) == c * (q * n);
  }

  /** Normalising first does not change the quotient: the score times both norms is the dot product. */
  lemma CosineIsQuotient(sqrt: real -> real, a: seq<real>, b: seq<real>)
    requires |a| == |b| && IsSqrt(sqrt)
    ensures Cosine(sqrt, a, b) * (Norm(sqrt, a) * Norm(sqrt, b)) == Dot(a, b)
  {
    var m, n := Norm(sqrt, a), Norm(sqrt, b);
    hide Cosine, Norm, Dot;
    ZeroScore(sqrt, a, b);
    if m == 0.0 || n == 0.0 {
      ZeroNorm(sqrt, a);
      ZeroNorm(sqrt, b);
      DotZero(a, b);
    } else {
      CosineIs(sqrt, a, b);
      DividedIsScaled(a, m);
      DividedIsScaled(b, n);
      var u, v := Divided(a, m), Divided(b, n);
      DotScaled(1.0 / m, a, v);
      DotSymmetric(a, v);
      DotScaled(1.0 / n, b, a);
      DotSymmetric(b, a);
      BothDivided(m, n, Dot(a, b), Dot(a, v), Dot(u, v));
    }
  }

  lemma {:induction false} DotZero(a: seq<real>, b: seq<real>)
    requires |a| == |b|
    ensures (forall i :: 0 <= i < |a| ==> a[i] == 0.0) || (forall i :: 0 <= i < |b| ==> b[i] == 0.0) ==> Dot(a, b) == 0.0
  {
    if a == [] {
    } else {
      DotZero(a[1..], b[1..]);
      assert (forall i :: 0 <= i < |a| ==> a[i] == 0.0) ==> forall i :: 0 <= i < |a[1..]| ==> a[1..][i] == 0.0;
      assert (forall i :: 0 <= i < |b| ==> b[i] == 0.0) ==> forall i :: 0 <= i < |b[1..]| ==> b[1..][i] == 0.0;
    }
  }

  lemma BothDivided(m: real, n: real, ab: real, av: real, uv: real)
    requires m != 0.0 && n != 0.0 && uv == 1.0 / m * av && av == 1.0 / n * ab
    ensures uv * (m * n) == ab
  {
    assert m * uv == av && n * av == ab;
    assert uv * (m * n) == n * (m * uv);
  }

  /** A NaN or an infinity counts as a zero, in either tensor. */
  lemma NonFiniteCountsAsZero(sqrt: real -> real, actual: seq<Entry>, expected: seq<Entry>, i: nat)
    requires i < |actual| && !actual[i].Finite?
    ensures Similarity(sqrt, actual[i := Finite(0.0)], expected) == Similarity(sqrt, actual, expected)
    ensures Similarity(sqrt, expected, actual[i := Finite(0.0)]) == Similarity(sqrt, expected, actual)
  {
    assert Cleaned(actual[i := Finite(0.0)]) == Cleaned(actual);
  }
}
