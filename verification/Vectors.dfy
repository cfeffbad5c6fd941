/**
 Vectors over exact reals, and Euclidean length through a square-root function.

 The source uses `f32::sqrt`; here a square root is a parameter `sqrt` about which
 nothing is known but IsSqrt. A 2D point is a 3D point with z == 0.
 */
module Vectors {

  datatype Vec = Vec(x: real, y: real, z: real)

  const ZERO := Vec(0.0, 0.0, 0.0)

  function Add(a: Vec, b: Vec): Vec {
    Vec(a.x + b.x, a.y + b.y, a.z + b.z)
  }

  function Sub(a: Vec, b: Vec): Vec {
    Vec(a.x - b.x, a.y - b.y, a.z - b.z)
  }

  function Scale(k: real, a: Vec): Vec {
    Vec(k * a.x, k * a.y, k * a.z)
  }

  function Dot(a: Vec, b: Vec): real {
    a.x * b.x + a.y * b.y + a.z * b.z
  }

  function Cross(a: Vec, b: Vec): Vec {
    Vec(a.y * b.z - a.z * b.y, a.z * b.x - a.x * b.z, a.x * b.y - a.y * b.x)
  }

  /** The point a fraction `alpha` of the way from `a` to `b`. */
  function Lerp(a: Vec, b: Vec, alpha: real): Vec {
    Vec(Mix(a.x, b.x, alpha), Mix(a.y, b.y, alpha), Mix(a.z, b.z, alpha))
  }

  function Mix(a: real, b: real, alpha: real): real {
    a + alpha * (b - a)
  }

  /** The fraction `c` of the way from fraction `a` to fraction `b`. */
  function Part(a: real, b: real, c: real): real {
    a + c * (b - a)
  }

  function DistSq(a: Vec, b: Vec): real {
    Dot(Sub(a, b), Sub(a, b))
  }

  ghost predicate IsSqrt(sqrt: real -> real) {
    forall x: real :: x >= 0.0 ==> sqrt(x) >= 0.0 && sqrt(x) * sqrt(x) == x
  }

  function Norm(sqrt: real -> real, v: Vec): real {
    sqrt(Dot(v, v))
  }

  function Dist(sqrt: real -> real, a: Vec, b: Vec): real {
    sqrt(DistSq(a, b))
  }

  lemma Product(a: real, b: real, p: real)
    requires p == a * b
    ensures (a > 0.0 && b > 0.0) || (a < 0.0 && b < 0.0) ==> p > 0.0
    ensures (a > 0.0 && b < 0.0) || (a < 0.0 && b > 0.0) ==> p < 0.0
    ensures a == 0.0 || b == 0.0 ==> p == 0.0
  {
  }

  lemma Square(x: real, q: real)
    requires q == x * x
    ensures q >= 0.0
    ensures q == 0.0 <==> x == 0.0
  {
    Product(x, x, q);
  }

  lemma Squares(a: real, b: real)
    requires a >= 0.0 && b >= 0.0
    ensures a <= b <==> a * a <= b * b
    ensures a == b <==> a * a == b * b
  {
    var p, q := a * a, b * b;
    assert q - p == (b - a) * (b + a);
    Product(b - a, b + a, q - p);
  }

  lemma SqrtOf(sqrt: real -> real, r: real, x: real)
    requires IsSqrt(sqrt) && r >= 0.0 && r * r == x
    ensures sqrt(x) == r
  {
    Squares(sqrt(x), r);
  }

  lemma SqrtOrder(sqrt: real -> real, x: real, y: real)
    requires IsSqrt(sqrt) && x >= 0.0 && y >= 0.0
    ensures x <= y <==> sqrt(x) <= sqrt(y)
  {
    Squares(sqrt(x), sqrt(y));
  }

  lemma DistBasics(sqrt: real -> real, a: Vec, b: Vec)
    requires IsSqrt(sqrt)
    ensures DistSq(a, b) >= 0.0
    ensures Dist(sqrt, a, b) >= 0.0
    ensures Dist(sqrt, a, b) * Dist(sqrt, a, b) == DistSq(a, b)
    ensures Dist(sqrt, a, b) == Dist(sqrt, b, a)
    ensures Dist(sqrt, a, b) == 0.0 <==> a == b
  {
    hide DistSq;
    DistSqBasics(a, b);
    var q := DistSq(a, b);
    if q == 0.0 {
      SqrtOf(sqrt, 0.0, q);
    }
  }

  lemma DistSqBasics(a: Vec, b: Vec)
    ensures DistSq(a, b) >= 0.0
    ensures DistSq(a, b) == DistSq(b, a)
    ensures DistSq(a, b) == 0.0 <==> a == b
  {
    DistSqSelf(a, b, Sub(a, b), DistSq(a, b));
    DotNegated(Sub(a, b), Sub(b, a));
  }

  lemma DistSqSelf(a: Vec, b: Vec, u: Vec, q: real)
    requires u == Sub(a, b) && q == Dot(u, u)
    ensures q >= 0.0
    ensures q == 0.0 <==> a == b
  {
    hide Dot;
    DotSelf(u);
    assert u == ZERO <==> a == b;
  }

  lemma DotNegated(u: Vec, v: Vec)
    requires v == Vec(-u.x, -u.y, -u.z)
    ensures Dot(u, u) == Dot(v, v)
  {
  }

  lemma DotSelf(v: Vec)
    ensures Dot(v, v) >= 0.0
    ensures Dot(v, v) == 0.0 <==> v == ZERO
  {
    Square(v.x, v.x * v.x);
    Square(v.y, v.y * v.y);
    Square(v.z, v.z * v.z);
  }

  lemma CauchySchwarz(u: Vec, v: Vec)
    ensures Dot(u, v) * Dot(u, v) <= Dot(u, u) * Dot(v, v)
  {
    DotSelf(Cross(u, v));
    Lagrange(u, v);
  }

  lemma Lagrange(u: Vec, v: Vec)
    ensures Dot(u, u) * Dot(v, v) == Dot(u, v) * Dot(u, v) + Dot(Cross(u, v), Cross(u, v))
  {
  }

  lemma Triangle(sqrt: real -> real, a: Vec, b: Vec, c: Vec)
    requires IsSqrt(sqrt)
    ensures Dist(sqrt, a, c) <= Dist(sqrt, a, b) + Dist(sqrt, b, c)
  {
    var u, v := Sub(a, b), Sub(b, c);
    var m, n, l := Dist(sqrt, a, b), Dist(sqrt, b, c), Dist(sqrt, a, c);
    DistBasics(sqrt, a, b);
    DistBasics(sqrt, b, c);
    DistBasics(sqrt, a, c);
    var d := Dot(u, v);
    assert l * l == m * m + n * n + 2.0 * d by {
      SquareOfSum(u, v);
      assert Sub(a, c) == Add(u, v);
    }
    assert d <= m * n by {
      CauchySchwarz(u, v);
      ProductOfSquares(m, n);
      if d > 0.0 {
        Squares(d, m * n);
      }
    }
    assert (m + n) * (m + n) == m * m + n * n + 2.0 * (m * n);
    Squares(l, m + n);
  }

  lemma SquareOfSum(u: Vec, v: Vec)
    ensures Dot(Add(u, v), Add(u, v)) == Dot(u, u) + Dot(v, v) + 2.0 * Dot(u, v)
  {
  }

  lemma ProductOfSquares(m: real, n: real)
    requires m >= 0.0 && n >= 0.0
    ensures m * n >= 0.0
    ensures (m * n) * (m * n) == (m * m) * (n * n)
  {
  }

  /** Along one segment, distance is proportional to the difference of the fractions. */
  lemma DistOnSegment(sqrt: real -> real, a: Vec, b: Vec, s: real, t: real)
    requires IsSqrt(sqrt) && s <= t
    ensures Dist(sqrt, Lerp(a, b, s), Lerp(a, b, t)) == (t - s) * Dist(sqrt, a, b)
  {
    hide *;
    var p, q := Lerp(a, b, s), Lerp(a, b, t);
    LerpDistSq(a, b, s, t);
    DistBasics(sqrt, a, b);
    DistBasics(sqrt, p, q);
    SameRoot(t - s, Dist(sqrt, a, b), DistSq(a, b), Dist(sqrt, p, q), DistSq(p, q));
  }

  lemma LerpDistSq(a: Vec, b: Vec, s: real, t: real)
    ensures DistSq(Lerp(a, b, s), Lerp(a, b, t)) == ((t - s) * (t - s)) * DistSq(a, b)
  {
    hide Dot, Lerp;
    LerpIsAdd(a, b, s);
    LerpIsAdd(a, b, t);
    SubLerps(a, Sub(b, a), s, t);
    assert Sub(b, a) == Scale(-1.0, Sub(a, b));
    ScaledSquare(-1.0, Sub(a, b));
    ScaledSquare(s - t, Sub(b, a));
    assert (s - t) * (s - t) == (t - s) * (t - s);
  }

  lemma SubLerps(a: Vec, v: Vec, s: real, t: real)
    ensures Sub(Add(a, Scale(s, v)), Add(a, Scale(t, v))) == Scale(s - t, v)
  {
  }

  /** The same point as an offset from `a`. */
  lemma LerpIsAdd(a: Vec, b: Vec, alpha: real)
    ensures Lerp(a, b, alpha) == Add(a, Scale(alpha, Sub(b, a)))
  {
    hide Mix;
    MixIs(a.x, b.x, alpha, b.x - a.x);
    MixIs(a.y, b.y, alpha, b.y - a.y);
    MixIs(a.z, b.z, alpha, b.z - a.z);
  }

  lemma MixIs(a: real, b: real, alpha: real, d: real)
    requires d == b - a
    ensures Mix(a, b, alpha) == a + alpha * d
  {
  }

  lemma SameRoot(k: real, l: real, q: real, d: real, r: real)
    requires k >= 0.0 && l >= 0.0 && d >= 0.0
    requires l * l == q && d * d == r && r == (k * k) * q
    ensures d == k * l
  {
    ProductOfSquares(k, l);
    Squares(d, k * l);
  }

  lemma ScaledSquare(k: real, v: Vec)
    ensures Dot(Scale(k, v), Scale(k, v)) == (k * k) * Dot(v, v)
  {
  }

  lemma LerpEnds(a: Vec, b: Vec)
    ensures Lerp(a, b, 0.0) == a && Lerp(a, b, 1.0) == b
  {
  }

  /** A point between two points of a segment is a point of that segment. */
  lemma LerpOfLerps(p: Vec, q: Vec, a: real, b: real, c: real)
    ensures Lerp(Lerp(p, q, a), Lerp(p, q, b), c) == Lerp(p, q, Part(a, b, c))
  {
    hide Mix, Part;
    MixOfMixes(p.x, q.x, a, b, c);
    MixOfMixes(p.y, q.y, a, b, c);
    MixOfMixes(p.z, q.z, a, b, c);
  }

  lemma MixOfMixes(p: real, q: real, a: real, b: real, c: real)
    ensures Mix(Mix(p, q, a), Mix(p, q, b), c) == Mix(p, q, Part(a, b, c))
  {
    var d, x, y, r := q - p, Mix(p, q, a), Mix(p, q, b), Part(a, b, c);
    assert y - x == (b - a) * d;
    assert c * (y - x) == (c * (b - a)) * d;
    assert r * d == a * d + (c * (b - a)) * d;
  }

  /** A distance along an axis. */
  lemma AxisDist(sqrt: real -> real, a: Vec, b: Vec, l: real)
    requires IsSqrt(sqrt) && l >= 0.0
    requires b == Vec(a.x + l, a.y, a.z) || b == Vec(a.x, a.y + l, a.z)
    ensures Dist(sqrt, a, b) == l
  {
    var q := l * l;
    assert DistSq(a, b) == q by {
      Opposite(l, q);
    }
    Square(l, q);
    SqrtOf(sqrt, l, q);
  }

  lemma Opposite(l: real, q: real)
    requires q == l * l
    ensures (-l) * (-l) == q
  {
  }
}
