/**
 Rigid transforms (src/utils_rs/src/pose.rs) over exact reals.

 Quaternion product, inverse of a unit quaternion and rotation of a vector are glam's.
 glam is not part of this model: product and inverse are written out, and a vector is
 rotated by the quaternion sandwich q v q*, which glam's formula equals for every q.
 */
module Poses {
  import opened Vectors

  datatype Quat = Quat(x: real, y: real, z: real, w: real)

  datatype Pose = Pose(position: Vec, quaternion: Quat)

  const ONE := Quat(0.0, 0.0, 0.0, 1.0)
  const IDENTITY := Pose(ZERO, ONE)

  function QMul(p: Quat, q: Quat): Quat {
    Quat(p.w * q.x + p.x * q.w + p.y * q.z - p.z * q.y,
         p.w * q.y - p.x * q.z + p.y * q.w + p.z * q.x,
         p.w * q.z + p.x * q.y - p.y * q.x + p.z * q.w,
         p.w * q.w - p.x * q.x - p.y * q.y - p.z * q.z)
  }

  function Conj(q: Quat): Quat {
    Quat(-q.x, -q.y, -q.z, q.w)
  }

  function NormSq(q: Quat): real {
    q.x * q.x + q.y * q.y + q.z * q.z + q.w * q.w
  }

  predicate Unit(q: Quat) {
    NormSq(q) == 1.0
  }

  function Pure(v: Vec): Quat {
    Quat(v.x, v.y, v.z, 0.0)
  }

  function Rotate(q: Quat, v: Vec): Vec {
    var s := QMul(QMul(q, Pure(v)), Conj(q));
    Vec(s.x, s.y, s.z)
  }

  function Compose(p: Pose, q: Pose): Pose {
    Pose(Add(p.position, Rotate(p.quaternion, q.position)), QMul(p.quaternion, q.quaternion))
  }

  function Inv(p: Pose): Pose {
    var r := Conj(p.quaternion);
    Pose(Scale(-1.0, Rotate(r, p.position)), r)
  }

  /** Where the pose takes a point of its own frame. */
  function Act(p: Pose, v: Vec): Vec {
    Add(p.position, Rotate(p.quaternion, v))
  }

  // ----- quaternion algebra, one component at a time

  function T2(a: real, b: real): real {
    a * b
  }

  function T3(a: real, b: real, c: real): real {
    a * b * c
  }

  lemma Expand(k: real, s: real, a: real, b: real, c: real, d: real)
    requires s == a + b + c + d
    ensures k * s == k * a + k * b + k * c + k * d
  {
  }

  /** A factor times one component of a product, with the signs of that component. */
  lemma Expand3(k: real, s: real, a: real, b: real, c: real, d: real, e: real, f: real, g: real, h: real,
                i: real, j: real, l: real)
    requires s == a * b + i * (c * d) + j * (e * f) + l * (g * h)
    ensures k * s == T3(k, a, b) + i * T3(k, c, d) + j * T3(k, e, f) + l * T3(k, g, h)
    ensures s * k == T3(a, b, k) + i * T3(c, d, k) + j * T3(e, f, k) + l * T3(g, h, k)
  {
    Expand(k, s, a * b, i * (c * d), j * (e * f), l * (g * h));
  }

  lemma QMulParts(p: Quat, q: Quat)
    ensures QMul(p, q).x == T2(p.w, q.x) + T2(p.x, q.w) + T2(p.y, q.z) - T2(p.z, q.y)
    ensures QMul(p, q).y == T2(p.w, q.y) - T2(p.x, q.z) + T2(p.y, q.w) + T2(p.z, q.x)
    ensures QMul(p, q).z == T2(p.w, q.z) + T2(p.x, q.y) - T2(p.y, q.x) + T2(p.z, q.w)
    ensures QMul(p, q).w == T2(p.w, q.w) - T2(p.x, q.x) - T2(p.y, q.y) - T2(p.z, q.z)
  {
  }

  lemma ScaledX(k: real, p: Quat, q: Quat)
    ensures var s := QMul(p, q).x;
            T2(k, s) == T3(k, p.w, q.x) + T3(k, p.x, q.w) + T3(k, p.y, q.z) - T3(k, p.z, q.y)
            && T2(s, k) == T3(p.w, q.x, k) + T3(p.x, q.w, k) + T3(p.y, q.z, k) - T3(p.z, q.y, k)
  {
    Expand3(k, QMul(p, q).x, p.w, q.x, p.x, q.w, p.y, q.z, p.z, q.y, 1.0, 1.0, -1.0);
  }

  lemma ScaledY(k: real, p: Quat, q: Quat)
    ensures var s := QMul(p, q).y;
            T2(k, s) == T3(k, p.w, q.y) - T3(k, p.x, q.z) + T3(k, p.y, q.w) + T3(k, p.z, q.x)
            && T2(s, k) == T3(p.w, q.y, k) - T3(p.x, q.z, k) + T3(p.y, q.w, k) + T3(p.z, q.x, k)
  {
    Expand3(k, QMul(p, q).y, p.w, q.y, p.x, q.z, p.y, q.w, p.z, q.x, -1.0, 1.0, 1.0);
  }

  lemma ScaledZ(k: real, p: Quat, q: Quat)
    ensures var s := QMul(p, q).z;
            T2(k, s) == T3(k, p.w, q.z) + T3(k, p.x, q.y) - T3(k, p.y, q.x) + T3(k, p.z, q.w)
            && T2(s, k) == T3(p.w, q.z, k) + T3(p.x, q.y, k) - T3(p.y, q.x, k) + T3(p.z, q.w, k)
  {
    Expand3(k, QMul(p, q).z, p.w, q.z, p.x, q.y, p.y, q.x, p.z, q.w, 1.0, -1.0, 1.0);
  }

  lemma ScaledW(k: real, p: Quat, q: Quat)
    ensures var s := QMul(p, q).w;
            T2(k, s) == T3(k, p.w, q.w) - T3(k, p.x, q.x) - T3(k, p.y, q.y) - T3(k, p.z, q.z)
            && T2(s, k) == T3(p.w, q.w, k) - T3(p.x, q.x, k) - T3(p.y, q.y, k) - T3(p.z, q.z, k)
  {
    Expand3(k, QMul(p, q).w, p.w, q.w, p.x, q.x, p.y, q.y, p.z, q.z, -1.0, -1.0, -1.0);
  }

  lemma Scaled(k: real, p: Quat, q: Quat, s: Quat)
    requires s == QMul(p, q)
    ensures T2(k, s.x) == T3(k, p.w, q.x) + T3(k, p.x, q.w) + T3(k, p.y, q.z) - T3(k, p.z, q.y)
    ensures T2(k, s.y) == T3(k, p.w, q.y) - T3(k, p.x, q.z) + T3(k, p.y, q.w) + T3(k, p.z, q.x)
    ensures T2(k, s.z) == T3(k, p.w, q.z) + T3(k, p.x, q.y) - T3(k, p.y, q.x) + T3(k, p.z, q.w)
    ensures T2(k, s.w) == T3(k, p.w, q.w) - T3(k, p.x, q.x) - T3(k, p.y, q.y) - T3(k, p.z, q.z)
    ensures T2(s.x, k) == T3(p.w, q.x, k) + T3(p.x, q.w, k) + T3(p.y, q.z, k) - T3(p.z, q.y, k)
    ensures T2(s.y, k) == T3(p.w, q.y, k) - T3(p.x, q.z, k) + T3(p.y, q.w, k) + T3(p.z, q.x, k)
    ensures T2(s.z, k) == T3(p.w, q.z, k) + T3(p.x, q.y, k) - T3(p.y, q.x, k) + T3(p.z, q.w, k)
    ensures T2(s.w, k) == T3(p.w, q.w, k) - T3(p.x, q.x, k) - T3(p.y, q.y, k) - T3(p.z, q.z, k)
  {
    hide *;
    ScaledX(k, p, q);
    ScaledY(k, p, q);
    ScaledZ(k, p, q);
    ScaledW(k, p, q);
  }

  lemma QMulAssoc(p: Quat, q: Quat, r: Quat)
    ensures QMul(QMul(p, q), r) == QMul(p, QMul(q, r))
  {
    hide *;
    var s, t := QMul(p, q), QMul(q, r);
    QMulParts(s, r);
    QMulParts(p, t);
    Scaled(r.x, p, q, s);
    Scaled(r.y, p, q, s);
    Scaled(r.z, p, q, s);
    Scaled(r.w, p, q, s);
    Scaled(p.x, q, r, t);
    Scaled(p.y, q, r, t);
    Scaled(p.z, q, r, t);
    Scaled(p.w, q, r, t);
    assert QMul(s, r).x == QMul(p, t).x;
    assert QMul(s, r).y == QMul(p, t).y;
    assert QMul(s, r).z == QMul(p, t).z;
    assert QMul(s, r).w == QMul(p, t).w;
  }

  // ----- signs, conjugates and norms

  lemma Signs(a: real, b: real)
    ensures T2(a, b) == T2(b, a)
    ensures T2(-a, b) == -T2(a, b)
    ensures T2(a, -b) == -T2(a, b)
    ensures T2(-a, -b) == T2(a, b)
    ensures T2(0.0, b) == 0.0
    ensures T2(1.0, b) == b
  {
  }

  lemma SignsWith(a: real, p: Quat)
    ensures T2(a, p.x) == T2(p.x, a) && T2(-a, p.x) == T2(a, -p.x) == -T2(a, p.x) && T2(-a, -p.x) == T2(a, p.x)
    ensures T2(a, p.y) == T2(p.y, a) && T2(-a, p.y) == T2(a, -p.y) == -T2(a, p.y) && T2(-a, -p.y) == T2(a, p.y)
    ensures T2(a, p.z) == T2(p.z, a) && T2(-a, p.z) == T2(a, -p.z) == -T2(a, p.z) && T2(-a, -p.z) == T2(a, p.z)
    ensures T2(a, p.w) == T2(p.w, a) && T2(-a, p.w) == T2(a, -p.w) == -T2(a, p.w) && T2(-a, -p.w) == T2(a, p.w)
  {
    hide T2;
    Signs(a, p.x);
    Signs(a, p.y);
    Signs(a, p.z);
    Signs(a, p.w);
  }

  lemma ConjMul(p: Quat, q: Quat)
    ensures Conj(QMul(p, q)) == QMul(Conj(q), Conj(p))
  {
    hide QMul, T2;
    QMulParts(p, q);
    QMulParts(Conj(q), Conj(p));
    SignsWith(q.x, p);
    SignsWith(q.y, p);
    SignsWith(q.z, p);
    SignsWith(q.w, p);
  }

  function Neg(q: Quat): Quat {
    Quat(-q.x, -q.y, -q.z, -q.w)
  }

  lemma NegMul(p: Quat, q: Quat)
    ensures QMul(Neg(p), q) == QMul(p, Neg(q)) == Neg(QMul(p, q))
  {
    hide QMul, T2;
    QMulParts(p, q);
    QMulParts(Neg(p), q);
    QMulParts(p, Neg(q));
    SignsWith(p.x, q);
    SignsWith(p.y, q);
    SignsWith(p.z, q);
    SignsWith(p.w, q);
  }

  function Real(n: real): Quat {
    Quat(0.0, 0.0, 0.0, n)
  }

  lemma NormParts(q: Quat)
    ensures NormSq(q) == T2(q.x, q.x) + T2(q.y, q.y) + T2(q.z, q.z) + T2(q.w, q.w)
  {
  }

  lemma ConjNorm(q: Quat)
    ensures QMul(q, Conj(q)) == QMul(Conj(q), q) == Real(NormSq(q))
    ensures NormSq(Conj(q)) == NormSq(q)
  {
    hide QMul, T2, NormSq;
    NormParts(q);
    NormParts(Conj(q));
    QMulParts(q, Conj(q));
    QMulParts(Conj(q), q);
    SignsWith(q.x, q);
    SignsWith(q.y, q);
    SignsWith(q.z, q);
    SignsWith(q.w, q);
  }

  lemma RealCommutes(n: real, q: Quat)
    ensures QMul(Real(n), q) == QMul(q, Real(n))
  {
    hide QMul, T2;
    QMulParts(Real(n), q);
    QMulParts(q, Real(n));
    SignsWith(0.0, q);
    SignsWith(n, q);
  }

  lemma OneMul(q: Quat)
    ensures QMul(ONE, q) == q == QMul(q, ONE)
  {
    hide QMul, T2;
    RealCommutes(1.0, q);
    QMulParts(ONE, q);
    Signs(1.0, q.x);
    Signs(1.0, q.y);
    Signs(1.0, q.z);
    Signs(1.0, q.w);
    Signs(0.0, q.x);
    Signs(0.0, q.y);
    Signs(0.0, q.z);
    Signs(0.0, q.w);
  }

  // ----- rotation

  /** The sandwich of a vector has no real part. */
  lemma Sandwich(q: Quat, v: Vec)
    ensures Pure(Rotate(q, v)) == QMul(QMul(q, Pure(v)), Conj(q))
  {
    hide QMul;
    var m, c := QMul(q, Pure(v)), Conj(q);
    assert Conj(Pure(v)) == Neg(Pure(v));
    ConjMul(m, c);
    ConjMul(q, Pure(v));
    NegMul(Pure(v), c);
    NegMul(q, QMul(Pure(v), c));
    QMulAssoc(q, Pure(v), c);
    assert Conj(QMul(m, c)) == Neg(QMul(m, c));
  }

  lemma RotateMul(p: Quat, q: Quat, v: Vec)
    ensures Rotate(QMul(p, q), v) == Rotate(p, Rotate(q, v))
  {
    hide QMul, Rotate;
    var V, m := Pure(v), QMul(q, Pure(v));
    Sandwich(QMul(p, q), v);
    Sandwich(p, Rotate(q, v));
    Sandwich(q, v);
    ConjMul(p, q);
    QMulAssoc(p, q, V);
    QMulAssoc(QMul(p, m), Conj(q), Conj(p));
    QMulAssoc(p, m, Conj(q));
    assert Pure(Rotate(QMul(p, q), v)) == Pure(Rotate(p, Rotate(q, v)));
  }

  lemma RotateOne(v: Vec)
    ensures Rotate(ONE, v) == v
  {
    hide *;
    Sandwich(ONE, v);
    ConjOne();
    OneMul(Pure(v));
    PureInjective(v, Rotate(ONE, v));
  }

  lemma ActIdentity(v: Vec)
    ensures Act(IDENTITY, v) == v
  {
    hide Rotate;
    RotateOne(v);
  }

  lemma ConjOne()
    ensures Conj(ONE) == ONE
  {
  }

  lemma PureInjective(u: Vec, v: Vec)
    requires Pure(u) == Pure(v)
    ensures u == v
  {
  }

  lemma RotateBack(q: Quat, v: Vec)
    requires Unit(q)
    ensures Rotate(Conj(q), Rotate(q, v)) == v == Rotate(q, Rotate(Conj(q), v))
  {
    hide QMul, Rotate, NormSq;
    ConjNorm(q);
    RotateMul(Conj(q), q, v);
    RotateMul(q, Conj(q), v);
    RotateOne(v);
  }

  /** A rotation preserves length. */
  lemma RotateIsometry(q: Quat, v: Vec)
    requires Unit(q)
    ensures Dot(Rotate(q, v), Rotate(q, v)) == Dot(v, v)
  {
    hide QMul, Rotate, NormSq, Dot;
    var V, c, m, n := Pure(v), Conj(q), QMul(q, Pure(v)), Dot(v, v);
    var s := QMul(m, c);
    Sandwich(q, v);
    PureNorm(v);
    PureNorm(Rotate(q, v));
    ConjNorm(s);
    assert QMul(s, Conj(s)) == Real(n) by {
      ConjMul(m, c);
      ConjMul(q, V);
      ConjNorm(q);
      ConjNorm(V);
      assert Conj(c) == q;
      var w := QMul(Conj(V), c);
      assert Conj(s) == QMul(q, w);
      QMulAssoc(m, c, QMul(q, w));
      QMulAssoc(c, q, w);
      OneMul(w);
      assert QMul(s, Conj(s)) == QMul(m, w);
      QMulAssoc(q, V, w);
      QMulAssoc(V, Conj(V), c);
      RealCommutes(n, c);
      QMulAssoc(q, c, Real(n));
      OneMul(Real(n));
    }
  }

  lemma PureNorm(v: Vec)
    ensures NormSq(Pure(v)) == Dot(v, v)
  {
  }

  lemma DistributeWith(c: real, a: Quat, k: real, b: Quat, s: Quat)
    requires s == Quat(a.x + T2(k, b.x), a.y + T2(k, b.y), a.z + T2(k, b.z), a.w + T2(k, b.w))
    ensures T2(c, s.x) == T2(c, a.x) + T3(k, c, b.x) && T2(s.x, c) == T2(a.x, c) + T3(k, b.x, c)
    ensures T2(c, s.y) == T2(c, a.y) + T3(k, c, b.y) && T2(s.y, c) == T2(a.y, c) + T3(k, b.y, c)
    ensures T2(c, s.z) == T2(c, a.z) + T3(k, c, b.z) && T2(s.z, c) == T2(a.z, c) + T3(k, b.z, c)
    ensures T2(c, s.w) == T2(c, a.w) + T3(k, c, b.w) && T2(s.w, c) == T2(a.w, c) + T3(k, b.w, c)
  {
    hide T2, T3;
    Distribute(c, a.x, k, b.x);
    Distribute(c, a.y, k, b.y);
    Distribute(c, a.z, k, b.z);
    Distribute(c, a.w, k, b.w);
  }

  lemma Distribute(c: real, a: real, k: real, b: real)
    ensures T2(c, a + T2(k, b)) == T2(c, a) + T3(k, c, b)
    ensures T2(a + T2(k, b), c) == T2(a, c) + T3(k, b, c)
  {
  }

  function Along(a: Quat, k: real, b: Quat): Quat {
    Quat(a.x + T2(k, b.x), a.y + T2(k, b.y), a.z + T2(k, b.z), a.w + T2(k, b.w))
  }

  lemma QMulAlong(p: Quat, a: Quat, k: real, b: Quat)
    ensures QMul(p, Along(a, k, b)) == Along(QMul(p, a), k, QMul(p, b))
    ensures QMul(Along(a, k, b), p) == Along(QMul(a, p), k, QMul(b, p))
  {
    hide QMul, T2, T3;
    var s := Along(a, k, b);
    QMulParts(p, s);
    QMulParts(p, a);
    QMulParts(s, p);
    QMulParts(a, p);
    Scaled(k, p, b, QMul(p, b));
    Scaled(k, b, p, QMul(b, p));
    DistributeWith(p.x, a, k, b, s);
    DistributeWith(p.y, a, k, b, s);
    DistributeWith(p.z, a, k, b, s);
    DistributeWith(p.w, a, k, b, s);
  }

  lemma PureAlong(u: Vec, v: Vec, k: real)
    ensures Pure(Add(u, Scale(k, v))) == Along(Pure(u), k, Pure(v))
  {
  }

  lemma RotateLinear(q: Quat, u: Vec, v: Vec, k: real)
    ensures Rotate(q, Add(u, Scale(k, v))) == Add(Rotate(q, u), Scale(k, Rotate(q, v)))
  {
    hide *;
    Sandwich(q, u);
    Sandwich(q, v);
    Sandwich(q, Add(u, Scale(k, v)));
    PureAlong(u, v, k);
    QMulAlong(q, Pure(u), k, Pure(v));
    QMulAlong(Conj(q), QMul(q, Pure(u)), k, QMul(q, Pure(v)));
    PureAlong(Rotate(q, u), Rotate(q, v), k);
    PureInjective(Rotate(q, Add(u, Scale(k, v))), Add(Rotate(q, u), Scale(k, Rotate(q, v))));
  }

  // ----- rigid-transform laws

  // ----- rotation is the usual matrix

  lemma AxisTimes(q: Quat)
    ensures QMul(q, Quat(1.0, 0.0, 0.0, 0.0)) == Quat(q.w, q.z, -q.y, -q.x)
    ensures QMul(q, Quat(0.0, 1.0, 0.0, 0.0)) == Quat(-q.z, q.w, q.x, -q.y)
    ensures QMul(q, Quat(0.0, 0.0, 1.0, 0.0)) == Quat(q.y, -q.x, q.w, -q.z)
  {
  }

  lemma UnitParts(q: Quat)
    requires Unit(q)
    ensures T2(q.x, q.x) + T2(q.y, q.y) + T2(q.z, q.z) + T2(q.w, q.w) == 1.0
  {
  }

  lemma AxisX(q: Quat)
    requires Unit(q)
    ensures Rotate(q, Vec(1.0, 0.0, 0.0))
            == Vec(1.0 - 2.0 * (T2(q.y, q.y) + T2(q.z, q.z)), 2.0 * (T2(q.x, q.y) + T2(q.w, q.z)),
                   2.0 * (T2(q.x, q.z) - T2(q.w, q.y)))
  {
    hide QMul, T2, Unit;
    AxisTimes(q);
    UnitParts(q);
    QMulParts(Quat(q.w, q.z, -q.y, -q.x), Conj(q));
    SignsWith(q.x, q);
    SignsWith(q.y, q);
    SignsWith(q.z, q);
    SignsWith(q.w, q);
  }

  lemma AxisY(q: Quat)
    requires Unit(q)
    ensures Rotate(q, Vec(0.0, 1.0, 0.0))
            == Vec(2.0 * (T2(q.x, q.y) - T2(q.w, q.z)), 1.0 - 2.0 * (T2(q.x, q.x) + T2(q.z, q.z)),
                   2.0 * (T2(q.y, q.z) + T2(q.w, q.x)))
  {
    hide QMul, T2, Unit;
    AxisTimes(q);
    UnitParts(q);
    QMulParts(Quat(-q.z, q.w, q.x, -q.y), Conj(q));
    SignsWith(q.x, q);
    SignsWith(q.y, q);
    SignsWith(q.z, q);
    SignsWith(q.w, q);
  }

  lemma AxisZ(q: Quat)
    requires Unit(q)
    ensures Rotate(q, Vec(0.0, 0.0, 1.0))
            == Vec(2.0 * (T2(q.x, q.z) + T2(q.w, q.y)), 2.0 * (T2(q.y, q.z) - T2(q.w, q.x)),
                   1.0 - 2.0 * (T2(q.x, q.x) + T2(q.y, q.y)))
  {
    hide QMul, T2, Unit;
    AxisTimes(q);
    UnitParts(q);
    QMulParts(Quat(q.y, -q.x, q.w, -q.z), Conj(q));
    SignsWith(q.x, q);
    SignsWith(q.y, q);
    SignsWith(q.z, q);
    SignsWith(q.w, q);
  }

  /** The rows of the matrix of a rotation; `T2` multiplies. */
  function RowX(q: Quat): Vec {
    Vec(1.0 - 2.0 * (T2(q.y, q.y) + T2(q.z, q.z)), 2.0 * (T2(q.x, q.y) - T2(q.w, q.z)),
        2.0 * (T2(q.x, q.z) + T2(q.w, q.y)))
  }

  function RowY(q: Quat): Vec {
    Vec(2.0 * (T2(q.x, q.y) + T2(q.w, q.z)), 1.0 - 2.0 * (T2(q.x, q.x) + T2(q.z, q.z)),
        2.0 * (T2(q.y, q.z) - T2(q.w, q.x)))
  }

  function RowZ(q: Quat): Vec {
    Vec(2.0 * (T2(q.x, q.z) - T2(q.w, q.y)), 2.0 * (T2(q.y, q.z) + T2(q.w, q.x)),
        1.0 - 2.0 * (T2(q.x, q.x) + T2(q.y, q.y)))
  }

  /** They are the images of the axes, read across. */
  lemma RowsAreImages(q: Quat)
    requires Unit(q)
    ensures var x, y, z := Rotate(q, Vec(1.0, 0.0, 0.0)), Rotate(q, Vec(0.0, 1.0, 0.0)), Rotate(q, Vec(0.0, 0.0, 1.0));
            RowX(q) == Vec(x.x, y.x, z.x) && RowY(q) == Vec(x.y, y.y, z.y) && RowZ(q) == Vec(x.z, y.z, z.z)
  {
    hide Rotate, T2, Unit;
    AxisX(q);
    AxisY(q);
    AxisZ(q);
  }

  lemma Columns(x: Vec, y: Vec, z: Vec, v: Vec)
    ensures Add(Add(Add(ZERO, Scale(v.x, x)), Scale(v.y, y)), Scale(v.z, z))
            == Vec(Dot(Vec(x.x, y.x, z.x), v), Dot(Vec(x.y, y.y, z.y), v), Dot(Vec(x.z, y.z, z.z), v))
  {
  }

  /** Rotation by a unit quaternion is the matrix that the quaternion stands for. */
  lemma RotateIsMatrix(q: Quat, v: Vec)
    requires Unit(q)
    ensures Rotate(q, v) == Vec(Dot(RowX(q), v), Dot(RowY(q), v), Dot(RowZ(q), v))
  {
    var x, y, z := Vec(1.0, 0.0, 0.0), Vec(0.0, 1.0, 0.0), Vec(0.0, 0.0, 1.0);
    var u := Add(ZERO, Scale(v.x, x));
    var w := Add(u, Scale(v.y, y));
    assert Add(w, Scale(v.z, z)) == v;
    hide *;
    RowsAreImages(q);
    RotateZero(q);
    RotateLinear(q, ZERO, x, v.x);
    RotateLinear(q, u, y, v.y);
    RotateLinear(q, w, z, v.z);
    Columns(Rotate(q, x), Rotate(q, y), Rotate(q, z), v);
  }

  lemma ActCompose(p: Pose, q: Pose, v: Vec)
    ensures Act(Compose(p, q), v) == Act(p, Act(q, v))
  {
    hide QMul, Rotate;
    RotateMul(p.quaternion, q.quaternion, v);
    RotateAdd(p.quaternion, q.position, Rotate(q.quaternion, v));
  }

  lemma RotateAdd(q: Quat, u: Vec, v: Vec)
    ensures Rotate(q, Add(u, v)) == Add(Rotate(q, u), Rotate(q, v))
  {
    hide Rotate;
    RotateLinear(q, u, v, 1.0);
    ScaleOne(v);
    ScaleOne(Rotate(q, v));
  }

  lemma ScaleOne(v: Vec)
    ensures Scale(1.0, v) == v
  {
  }

  lemma ComposeAssoc(p: Pose, q: Pose, r: Pose)
    ensures Compose(Compose(p, q), r) == Compose(p, Compose(q, r))
  {
    hide QMul, Rotate;
    ActCompose(p, q, r.position);
    QMulAssoc(p.quaternion, q.quaternion, r.quaternion);
  }

  lemma ComposeIdentity(p: Pose)
    ensures Compose(p, IDENTITY) == p == Compose(IDENTITY, p)
  {
    hide QMul, Rotate;
    RotateZero(p.quaternion);
    RotateOne(p.position);
    OneMul(p.quaternion);
  }

  lemma RotateZero(q: Quat)
    ensures Rotate(q, ZERO) == ZERO
  {
    hide Rotate;
    RotateAdd(q, ZERO, ZERO);
    assert Add(ZERO, ZERO) == ZERO;
  }

  lemma RotateNegated(q: Quat, v: Vec)
    ensures Rotate(q, Scale(-1.0, v)) == Scale(-1.0, Rotate(q, v))
  {
    hide Rotate;
    RotateZero(q);
    RotateLinear(q, ZERO, v, -1.0);
    assert Add(ZERO, Scale(-1.0, v)) == Scale(-1.0, v);
  }

  lemma InvIsInverse(p: Pose)
    requires Unit(p.quaternion)
    ensures Compose(p, Inv(p)) == IDENTITY == Compose(Inv(p), p)
    ensures Unit(Inv(p).quaternion)
  {
    hide QMul, Rotate, NormSq;
    var q := p.quaternion;
    ConjNorm(q);
    RotateBack(q, p.position);
    RotateNegated(q, Rotate(Conj(q), p.position));
  }

  lemma ComposeUnit(p: Pose, q: Pose)
    requires Unit(p.quaternion) && Unit(q.quaternion)
    ensures Unit(Compose(p, q).quaternion)
  {
    hide QMul, Rotate, NormSq;
    var a, b := p.quaternion, q.quaternion;
    ConjNorm(QMul(a, b));
    ConjMul(a, b);
    ConjNorm(a);
    ConjNorm(b);
    QMulAssoc(a, b, QMul(Conj(b), Conj(a)));
    QMulAssoc(b, Conj(b), Conj(a));
    OneMul(Conj(a));
  }

  /** Relative transforms chain: delta(a, b) followed by delta(b, c) is delta(a, c). */
  lemma DeltasChain(a: Pose, b: Pose, c: Pose)
    requires Unit(b.quaternion)
    ensures Compose(Compose(Inv(a), b), Compose(Inv(b), c)) == Compose(Inv(a), c)
  {
    hide *;
    ComposeAssoc(Inv(a), b, Compose(Inv(b), c));
    ComposeAssoc(b, Inv(b), c);
    InvIsInverse(b);
    ComposeIdentity(c);
  }

  lemma ActIsometry(sqrt: real -> real, p: Pose, u: Vec, v: Vec)
    requires Unit(p.quaternion)
    ensures Dist(sqrt, Act(p, u), Act(p, v)) == Dist(sqrt, u, v)
  {
    hide Rotate, Dot, NormSq;
    var q := p.quaternion;
    RotateNegated(q, v);
    RotateAdd(q, u, Scale(-1.0, v));
    assert Add(u, Scale(-1.0, v)) == Sub(u, v);
    assert Sub(Act(p, u), Act(p, v)) == Add(Rotate(q, u), Scale(-1.0, Rotate(q, v)));
    RotateIsometry(q, Sub(u, v));
  }

  lemma ActLerp(p: Pose, u: Vec, v: Vec, alpha: real)
    ensures Act(p, Lerp(u, v, alpha)) == Lerp(Act(p, u), Act(p, v), alpha)
  {
    hide Rotate, Lerp;
    LerpIsAdd(u, v, alpha);
    LerpIsAdd(Act(p, u), Act(p, v), alpha);
    var q := p.quaternion;
    RotateNegated(q, u);
    RotateAdd(q, v, Scale(-1.0, u));
    assert Add(v, Scale(-1.0, u)) == Sub(v, u);
    RotateLinear(q, u, Sub(v, u), alpha);
    assert Sub(Act(p, v), Act(p, u)) == Add(Rotate(q, v), Scale(-1.0, Rotate(q, u)));
  }
}
