/** Powers and square roots over the exact reals. */
module RealAnalysis {

  function Pow(x: real, n: nat): real {
    if n == 0 then 1.0 else x * Pow(x, n - 1)
  }

  /** A function that returns the non-negative root of every non-negative real. */
  ghost predicate IsSqrt(sqrt: real -> real) {
    forall y :: y >= 0.0 ==> sqrt(y) >= 0.0 && sqrt(y) * sqrt(y) == y
  }

  lemma MulMonotone(a: real, b: real, c: real)
    requires a <= b && 0.0 <= c
    ensures a * c <= b * c
  {
  }

  lemma MulStrict(a: real, b: real, c: real)
    requires a < b && 0.0 < c
    ensures a * c < b * c
  {
  }

  lemma PositiveProduct(a: real, b: real, p: real)
    requires 0.0 < a && 0.0 < b && p == a * b
    ensures 0.0 < p
  {
  }

  lemma SquareZero(d: real, p: real)
    requires p == d * d
    ensures 0.0 <= p && (p == 0.0 <==> d == 0.0)
  {
    if d > 0.0 { PositiveProduct(d, d, p); }
    if d < 0.0 {
      assert p == (-d) * (-d);
      PositiveProduct(-d, -d, p);
    }
  }

  lemma PowZero(x: real)
    ensures Pow(x, 0) == 1.0
  {
  }

  lemma PowStep(x: real, n: nat)
    requires n > 0
    ensures Pow(x, n) == x * Pow(x, n - 1)
  {
  }

  lemma {:induction false} PowPositive(x: real, n: nat)
    requires x > 0.0
    ensures Pow(x, n) > 0.0
  {
    if n == 0 {
    } else {
      PowPositive(x, n - 1);
    }
  }

  lemma {:induction false} PowMonotone(x: real, y: real, n: nat)
    requires 0.0 <= x <= y
    ensures 0.0 <= Pow(x, n) <= Pow(y, n)
    ensures x < y && n > 0 ==> Pow(x, n) < Pow(y, n)
  {
    hide *;
    if n == 0 {
      PowZero(x);
      PowZero(y);
    } else {
      var p, q := Pow(x, n - 1), Pow(y, n - 1);
      PowMonotone(x, y, n - 1);
      PowStep(x, n);
      PowStep(y, n);
      MonotoneStep(x, y, p, q, Pow(x, n), Pow(y, n));
      if x < y {
        PowPositive(y, n - 1);
        StrictStep(x, y, p, q, Pow(x, n), Pow(y, n));
      }
    }
  }

  lemma MonotoneStep(x: real, y: real, p: real, q: real, xp: real, yq: real)
    requires 0.0 <= x <= y && 0.0 <= p <= q && xp == x * p && yq == y * q
    ensures 0.0 <= xp <= yq
  {
    MulMonotone(0.0, p, x);
    MulMonotone(p, q, x);
    MulMonotone(x, y, q);
  }

  lemma StrictStep(x: real, y: real, p: real, q: real, xp: real, yq: real)
    requires 0.0 <= x < y && p <= q && 0.0 < q && xp == x * p && yq == y * q
    ensures xp < yq
  {
    MulMonotone(p, q, x);
    MulStrict(x, y, q);
  }

  lemma {:induction false} PowInUnit(x: real, n: nat)
    requires 0.0 <= x <= 1.0
    ensures 0.0 <= Pow(x, n) <= 1.0
  {
    hide *;
    if n == 0 {
      PowZero(x);
    } else {
      PowInUnit(x, n - 1);
      PowStep(x, n);
      UnitStep(x, Pow(x, n - 1), Pow(x, n));
    }
  }

  lemma UnitStep(x: real, p: real, xp: real)
    requires 0.0 <= x <= 1.0 && 0.0 <= p <= 1.0 && xp == x * p
    ensures 0.0 <= xp <= 1.0
  {
    UnitScales(x, p);
  }

  lemma UnitScales(x: real, p: real)
    requires 0.0 <= x <= 1.0 && 0.0 <= p
    ensures 0.0 <= x * p <= p
  {
    assert 0.0 <= x * p;
    assert 0.0 <= (1.0 - x) * p;
  }

  lemma {:induction false} PowReciprocal(x: real, n: nat)
    requires x > 0.0
    ensures Pow(x, n) > 0.0
    ensures Pow(1.0 / x, n) == 1.0 / Pow(x, n)
  {
    PowPositive(x, n);
    if n == 0 {
    } else {
      PowReciprocal(x, n - 1);
      var p := Pow(x, n - 1);
      assert (1.0 / x) * (1.0 / p) * (x * p) == 1.0;
    }
  }

  lemma ScaledWithin(k: real, q: real, w: real)
    requires 0.0 <= k && 0.0 <= q <= 1.0 && 0.0 <= w
    ensures 0.0 <= k * q * w <= k * w
  {
    UnitScales(q, w);
    calc {
      k * q * w;
      q * w * k;
    <= { MulMonotone(q * w, w, k); }
      w * k;
    }
    assert 0.0 <= q * w * k == k * q * w;
  }

  /** What is between a power and its tangent. */
  ghost predicate IsExcess(px: real, py: real, k: real, q: real, z: real, e: real) { e == px - py - k * q * z }

  ghost predicate IsSlight(e: real, k: real, w: real) { 0.0 <= e <= k * k * w }

  ghost predicate IsProduct(xp: real, x: real, p: real) { xp == x * p }

  /** The tangent to a power lies below it, by at most a quadratic amount. */
  lemma {:induction false} PowTangent(x: real, y: real, n: nat, z: real, w: real, k: real, e: real)
    requires 0.0 <= y <= x <= 1.0 && n > 0 && z == x - y && w == z * z && k == n as real
    requires IsExcess(Pow(x, n), Pow(y, n), k, Pow(y, n - 1), z, e)
    ensures IsSlight(e, k, w)
  {
    hide *;
    PowProduct(x, n);
    PowProduct(y, n);
    if n == 1 {
      PowZero(x);
      PowZero(y);
      FirstTangent(x, y, z, w, k, Pow(x, n), Pow(y, n), e);
    } else {
      PowProduct(y, n - 1);
      PowInUnit(y, n - 2);
      var p, q, yq, j := Pow(x, n - 1), Pow(y, n - 2), Pow(y, n - 1), k - 1.0;
      var before := Excess(p, yq, j, q, z);
      PowTangent(x, y, n - 1, z, w, j, before);
      NextTangent(x, y, z, w, j, k, p, q, before, Pow(x, n), yq, Pow(y, n), e);
    }
  }

  lemma Excess(px: real, py: real, k: real, q: real, z: real) returns (e: real)
    ensures IsExcess(px, py, k, q, z, e)
  {
    e := px - py - k * q * z;
  }

  lemma PowProduct(x: real, n: nat)
    requires n > 0
    ensures IsProduct(Pow(x, n), x, Pow(x, n - 1))
  {
  }

  lemma FirstTangent(x: real, y: real, z: real, w: real, k: real, px: real, py: real, e: real)
    requires IsProduct(px, x, 1.0) && IsProduct(py, y, 1.0) && k == 1.0 && z == x - y && w == z * z && IsExcess(px, py, k, 1.0, z, e)
    ensures IsSlight(e, k, w)
  {
    SquareZero(z, w);
  }

  lemma NextTangent(x: real, y: real, z: real, w: real, j: real, k: real, p: real, q: real, before: real,
                    xp: real, yq: real, yyq: real, e: real)
    requires 0.0 <= x <= 1.0 && 0.0 <= q <= 1.0 && 0.0 <= j && k == j + 1.0 && z == x - y && w == z * z
    requires IsProduct(xp, x, p) && IsProduct(yq, y, q) && IsProduct(yyq, y, yq)
    requires IsExcess(p, yq, j, q, z, before) && IsExcess(xp, yyq, k, yq, z, e) && IsSlight(before, j, w)
    ensures IsSlight(e, k, w)
  {
    SquareZero(z, w);
    TangentStep(x, y, z, w, j, k, p, q, before, xp, yq, yyq, e);
  }

  lemma TangentStep(x: real, y: real, z: real, w: real, j: real, k: real, p: real, q: real, before: real,
                    xp: real, yq: real, yyq: real, e: real)
    requires 0.0 <= x <= 1.0 && 0.0 <= q <= 1.0 && 0.0 <= j && k == j + 1.0 && z == x - y && w == z * z && 0.0 <= w
    requires xp == x * p && yq == y * q && yyq == y * yq
    requires before == p - yq - j * q * z && e == xp - yyq - k * yq * z
    requires 0.0 <= before <= j * j * w
    ensures 0.0 <= e <= k * k * w
  {
    TangentAlgebra(x, y, z, w, j, k, p, q, before, xp, yq, yyq, e);
    TangentBound(x, before, j, k, q, w, e);
  }

  lemma TangentAlgebra(x: real, y: real, z: real, w: real, j: real, k: real, p: real, q: real, before: real,
                       xp: real, yq: real, yyq: real, e: real)
    requires z == x - y && w == z * z && k == j + 1.0 && xp == x * p && yq == y * q && yyq == y * yq
    requires before == p - yq - j * q * z && e == xp - yyq - k * yq * z
    ensures e == x * before + j * q * w
  {
    calc {
      e;
      x * p - y * yq - (j + 1.0) * yq * z;
      x * p - x * yq + z * yq - (j + 1.0) * yq * z;
      x * (p - yq) - j * yq * z;
      { assert yq == x * q - z * q; }
      x * (p - yq) - j * (x * q - z * q) * z;
      x * (p - yq - j * q * z) + j * q * (z * z);
    }
  }

  lemma TangentBound(x: real, before: real, j: real, k: real, q: real, w: real, e: real)
    requires 0.0 <= x <= 1.0 && 0.0 <= q <= 1.0 && 0.0 <= w && 0.0 <= j && k == j + 1.0
    requires 0.0 <= before <= j * j * w && e == x * before + j * q * w
    ensures 0.0 <= e <= k * k * w
  {
    var p, s := x * before, j * q * w;
    assert 0.0 <= p <= before by { UnitScales(x, before); }
    assert 0.0 <= s <= j * w by { ScaledWithin(j, q, w); }
    assert j * j * w + j * w <= k * k * w by {
      assert 0.0 <= k * w;
      assert k * k * w == j * j * w + j * w + k * w;
    }
  }

  lemma {:induction false} TwoPowExceeds(n: nat)
    ensures Pow(2.0, n) > n as real
  {
    if n == 0 {
    } else {
      TwoPowExceeds(n - 1);
      assert Pow(2.0, n - 1) >= 1.0 by { if n > 1 { } }
    }
  }

  lemma Multiple(e: real, c: real) returns (n: nat)
    requires e > 0.0
    ensures n as real * e > c
  {
    if c < 0.0 {
      n := 0;
    } else {
      var q := c / e;
      n := q.Floor + 1;
      assert q * e == c;
      MulStrict(q, n as real, e);
    }
  }

  /** A real bounded by c / 2^k for every k is not positive. */
  lemma Archimedes(e: real, c: real)
    requires forall k: nat :: e * Pow(2.0, k) <= c
    ensures e <= 0.0
  {
    hide *;
    if e > 0.0 {
      var n := Multiple(e, c);
      var p := Pow(2.0, n);
      TwoPowExceeds(n);
      assert e * p <= c;
      MulStrict(n as real, p, e);
      assert false;
    }
  }

  /** Non-negative numbers are ordered as their squares are. */
  lemma SquareOrder(a: real, b: real)
    requires 0.0 <= a && 0.0 <= b
    ensures a * a <= b * b <==> a <= b
    ensures a * a == b * b <==> a == b
  {
    if a < b { SquareStrict(a, b); }
    if b < a { SquareStrict(b, a); }
  }

  lemma SquareStrict(a: real, b: real)
    requires 0.0 <= a < b
    ensures a * a < b * b
  {
    calc {
      a * a;
    <= { MulMonotone(a, b, a); }
      b * a;
    <  { MulStrict(a, b, b); }
      b * b;
    }
  }
}
