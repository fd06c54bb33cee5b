/** Vectors over the reals: dot product, scaling, and the square-root laws a
    norm needs. The square root itself stays a parameter. */
module Linear {

  function Dot(a: seq<real>, b: seq<real>): real
    requires |a| == |b|
  {
    if a == [] then 0.0
    else Dot(a[..|a| - 1], b[..|b| - 1]) + a[|a| - 1] * b[|b| - 1]
  }

  /** `a - c * b`, the update of one projection step. */
  function MinusScaled(a: seq<real>, c: real, b: seq<real>): (r: seq<real>)
    requires |a| == |b|
    ensures |r| == |a| && forall i :: 0 <= i < |a| ==> r[i] == a[i] - c * b[i]
  {
    seq(|a|, i requires 0 <= i < |a| => a[i] - c * b[i])
  }

  function Divide(v: seq<real>, c: real): (r: seq<real>)
    requires c != 0.0
    ensures |r| == |v| && forall i :: 0 <= i < |v| ==> r[i] == v[i] / c
  {
    seq(|v|, i requires 0 <= i < |v| => v[i] / c)
  }

  ghost predicate SqrtLaw(sqrt: real -> real) {
    forall x: real :: x >= 0.0 ==> sqrt(x) >= 0.0 && sqrt(x) * sqrt(x) == x
  }

  ghost predicate IsZero(v: seq<real>) {
    forall i :: 0 <= i < |v| ==> v[i] == 0.0
  }

  lemma ZeroProduct(x: real, y: real)
    requires x * y == 0.0
    ensures x == 0.0 || y == 0.0
  {
    if x != 0.0 {
      assert y == x * y / x;
    }
  }

  lemma QuotientUnique(x: real, c: real, q: real)
    requires c != 0.0 && q * c == x
    ensures q == x / c
  {
    var d := q - x / c;
    assert x / c * c == x;
    assert d * c == 0.0;
    ZeroProduct(d, c);
  }

  lemma QuotientTimes(x: real, c: real)
    requires c != 0.0
    ensures x / c * c == x
  {
  }

  lemma DivideTimes(a: real, c: real, b: real)
    requires c != 0.0
    ensures a / c * b == a * b / c
  {
    var q := a / c;
    assert q * c == a;
    assert (q * b) * c == (q * c) * b;
    QuotientUnique(a * b, c, q * b);
  }

  lemma DivideSum(a: real, b: real, c: real)
    requires c != 0.0
    ensures a / c + b / c == (a + b) / c
  {
    assert (a / c + b / c) * c == a / c * c + b / c * c;
    QuotientUnique(a + b, c, a / c + b / c);
  }

  lemma {:induction false} DotSymmetric(a: seq<real>, b: seq<real>)
    requires |a| == |b|
    ensures Dot(a, b) == Dot(b, a)
  {
    if a != [] {
      DotSymmetric(a[..|a| - 1], b[..|b| - 1]);
    }
  }

  lemma MinusScaledFront(a: seq<real>, c: real, b: seq<real>, n: nat)
    requires |a| == |b| && n <= |a|
    ensures MinusScaled(a, c, b)[..n] == MinusScaled(a[..n], c, b[..n])
  {
    var m, k := MinusScaled(a, c, b), MinusScaled(a[..n], c, b[..n]);
    forall i | 0 <= i < n ensures m[i] == k[i] {
      assert a[..n][i] == a[i] && b[..n][i] == b[i];
    }
  }

  lemma ProjectionStep(x: real, y: real, a: real, b: real, r: real, c: real)
    ensures (x - c * y) + (a - c * b) * r == (x + a * r) - c * (y + b * r)
  {
  }

  lemma {:induction false} DotMinusScaled(a: seq<real>, c: real, b: seq<real>, r: seq<real>)
    requires |a| == |b| == |r|
    ensures Dot(MinusScaled(a, c, b), r) == Dot(a, r) - c * Dot(b, r)
  {
    if a == [] {
      assert c * 0.0 == 0.0;
    } else {
      var n := |a| - 1;
      DotMinusScaled(a[..n], c, b[..n], r[..n]);
      MinusScaledFront(a, c, b, n);
      ProjectionStep(Dot(a[..n], r[..n]), Dot(b[..n], r[..n]), a[n], b[n], r[n], c);
    }
  }

  lemma DivideStep(x: real, y: real, z: real, c: real)
    requires c != 0.0
    ensures x / c + y / c * z == (x + y * z) / c
  {
    DivideTimes(y, c, z);
    DivideSum(x, y * z, c);
  }

  lemma {:induction false} DotDivide(a: seq<real>, c: real, r: seq<real>)
    requires |a| == |r| && c != 0.0
    ensures Dot(Divide(a, c), r) == Dot(a, r) / c
  {
    if a != [] {
      var n := |a| - 1;
      DotDivide(a[..n], c, r[..n]);
      assert Divide(a, c)[..n] == Divide(a[..n], c) && Divide(a, c)[n] == a[n] / c;
      var x, y, z := Dot(a[..n], r[..n]), a[n], r[n];
      assert Dot(a, r) == x + y * z && Dot(Divide(a, c), r) == x / c + y / c * z;
      hide *;
      DivideStep(x, y, z, c);
    }
  }

  lemma {:induction false} DotSelf(v: seq<real>)
    ensures Dot(v, v) >= 0.0
    ensures Dot(v, v) == 0.0 <==> IsZero(v)
  {
    if v != [] {
      var n := |v| - 1;
      DotSelf(v[..n]);
      assert v[n] * v[n] >= 0.0;
      if v[n] * v[n] == 0.0 {
        ZeroProduct(v[n], v[n]);
      }
      assert IsZero(v) <==> IsZero(v[..n]) && v[n] == 0.0;
    }
  }

  lemma {:induction false} DotWithZero(z: seq<real>, r: seq<real>)
    requires |z| == |r| && IsZero(z)
    ensures Dot(z, r) == 0.0
  {
    if z != [] {
      DotWithZero(z[..|z| - 1], r[..|r| - 1]);
    }
  }

  function Norm(sqrt: real -> real, v: seq<real>): real {
    sqrt(Dot(v, v))
  }

  /** A vector divided by its own norm has unit length. */
  lemma NormalizedIsUnit(sqrt: real -> real, v: seq<real>)
    requires SqrtLaw(sqrt) && Norm(sqrt, v) != 0.0
    ensures Dot(Divide(v, Norm(sqrt, v)), Divide(v, Norm(sqrt, v))) == 1.0
  {
    var n := Norm(sqrt, v);
    DotSelf(v);
    DotDivide(v, n, Divide(v, n));
    DotSymmetric(v, Divide(v, n));
    DotDivide(v, n, v);
    assert n * n == Dot(v, v);
    QuotientUnique(Dot(v, v), n, n);
    QuotientUnique(n, n, 1.0);
  }

  lemma NormZero(sqrt: real -> real, v: seq<real>)
    requires SqrtLaw(sqrt)
    ensures Norm(sqrt, v) >= 0.0
    ensures Norm(sqrt, v) == 0.0 <==> IsZero(v)
  {
    DotSelf(v);
    var n := Norm(sqrt, v);
    assert n * n == Dot(v, v);
    if Dot(v, v) == 0.0 {
      ZeroProduct(n, n);
    }
  }

  lemma SqrtOfOne(sqrt: real -> real)
    requires SqrtLaw(sqrt)
    ensures sqrt(1.0) == 1.0
  {
    var r := sqrt(1.0);
    assert r >= 0.0 && r * r == 1.0;
    assert (r - 1.0) * (r + 1.0) == r * r - 1.0;
    ZeroProduct(r - 1.0, r + 1.0);
  }

  // ----- fractions ----------------------------------------------------------

  lemma FractionFalls(weight: real, x: real, y: real)
    requires weight >= 0.0 && 0.0 < x <= y
    ensures weight / x >= weight / y >= 0.0
    ensures weight > 0.0 && x < y ==> weight / x > weight / y
  {
    var a, b := weight / x, weight / y;
    assert a * x == weight && b * y == weight;
    if b < 0.0 {
      NegativeProduct(b, y);
    }
    if a < b {
      Grows(a, b, x, y);
    }
    if weight > 0.0 && x < y && a == b {
      Strict(a, x, y);
    }
  }

  lemma NegativeProduct(b: real, y: real)
    requires b < 0.0 && y > 0.0
    ensures b * y < 0.0
  {
  }

  lemma Grows(a: real, b: real, x: real, y: real)
    requires a < b && b >= 0.0 && 0.0 < x <= y
    ensures a * x < b * y
  {
    Positive(b - a, x);
    assert (b - a) * x == b * x - a * x;
    if x < y && b > 0.0 {
      Positive(b, y - x);
      assert b * (y - x) == b * y - b * x;
    }
  }

  lemma Positive(u: real, v: real)
    requires u > 0.0 && v > 0.0
    ensures u * v > 0.0
  {
  }

  lemma Strict(a: real, x: real, y: real)
    requires 0.0 < x < y && a * x == a * y
    ensures a * x == 0.0
  {
    assert a * (y - x) == 0.0;
    ZeroProduct(a, y - x);
  }

  lemma FractionLess(a: real, b: real, x: real, y: real)
    requires x > 0.0 && y > 0.0 && a * y < b * x
    ensures a / x < b / y
  {
    var p, q := a / x, b / y;
    assert p * x == a && q * y == b;
    assert a * y == p * (x * y) && b * x == q * (x * y);
    if q <= p {
      Positive(x, y);
      assert (p - q) * (x * y) == p * (x * y) - q * (x * y);
      if q < p {
        Positive(p - q, x * y);
      }
    }
  }

  lemma FractionOrder(a: real, b: real, c: real)
    requires c > 0.0 && a < b
    ensures a / c < b / c
  {
    Positive(b - a, c);
    assert (b - a) * c == b * c - a * c;
    FractionLess(a, b, c, c);
  }

  lemma FractionPositive(a: real, c: real)
    requires a > 0.0 && c > 0.0
    ensures a / c > 0.0
  {
    FractionOrder(0.0, a, c);
    assert 0.0 / c * c == 0.0;
    ZeroProduct(0.0 / c, c);
  }

  lemma ProductOrder(a: real, b: real, c: real)
    requires a < b && c > 0.0
    ensures a * c < b * c
  {
    Positive(b - a, c);
    assert (b - a) * c == b * c - a * c;
  }

  function Times(a: real, b: real): real {
    a * b
  }

  lemma TimesGrows(a: real, b: real, c: real, d: real)
    requires 0.0 <= a <= b && 0.0 <= c <= d
    ensures Times(a, c) >= 0.0 && (Times(a, c) > 0.0 <==> a > 0.0 && c > 0.0)
    ensures a < b && c > 0.0 ==> Times(a, c) < Times(b, c)
    ensures c < d && a > 0.0 ==> Times(a, c) < Times(a, d)
  {
    if a > 0.0 && c > 0.0 {
      Positive(a, c);
    }
    if a < b && c > 0.0 {
      TimesLess(a, b, c);
    }
    if c < d && a > 0.0 {
      TimesLess(c, d, a);
      assert Times(c, a) == Times(a, c) && Times(d, a) == Times(a, d);
    }
  }

  lemma TimesLess(a: real, b: real, c: real)
    requires a < b && c > 0.0
    ensures Times(a, c) < Times(b, c)
  {
    ProductOrder(a, b, c);
  }
}
