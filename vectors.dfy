/**
 * Vector helpers and plane fitting of polygon3dmodule.py: det, dot, cross, unit_normal,
 * plane, get_height and get_y. Coordinates are exact reals. Dafny has no real square root,
 * so the magnitude in unit_normal is taken from a square-root oracle (see IsSqrt).
 */
module Vectors {
  import opened Outcomes
  import opened RealArith

  /** A point or a vector of three coordinates; equality is exact coordinate equality. */
  datatype Point3 = Point3(x: real, y: real, z: real)

  type Vector3 = Point3

  /** A 3x3 matrix given by its rows, indexed as det indexes it: a[row][column]. */
  datatype Matrix3 = Matrix3(r0: Point3, r1: Point3, r2: Point3)

  /** The plane a*x + b*y + c*z + d == 0, as returned by plane(a, b, c). */
  datatype Plane = Plane(a: real, b: real, c: real, d: real)

  const Zero := Point3(0.0, 0.0, 0.0)

  function Sub(p: Point3, q: Point3): Vector3 {
    Point3(p.x - q.x, p.y - q.y, p.z - q.z)
  }

  function Scale(v: Vector3, k: real): Vector3 {
    Point3(k * v.x, k * v.y, k * v.z)
  }

  function Neg(v: Vector3): Vector3 {
    Point3(-v.x, -v.y, -v.z)
  }

  /** The squared length x*x + y*y + z*z, the argument of the square root in unit_normal. */
  function Norm2(v: Vector3): real {
    v.x * v.x + v.y * v.y + v.z * v.z
  }

  /** det: the determinant of a 3x3 matrix, expanded as the source writes it. */
  function Det(m: Matrix3): real {
    m.r0.x * m.r1.y * m.r2.z + m.r0.y * m.r1.z * m.r2.x + m.r0.z * m.r1.x * m.r2.y
    - m.r0.z * m.r1.y * m.r2.x - m.r0.y * m.r1.x * m.r2.z - m.r0.x * m.r1.z * m.r2.y
  }

  /** dot: the dot product of two vectors. */
  function Dot(a: Vector3, b: Vector3): real {
    a.x * b.x + a.y * b.y + a.z * b.z
  }

  /** cross: the cross product of two vectors. */
  function Cross(a: Vector3, b: Vector3): Vector3 {
    Point3(a.y * b.z - a.z * b.y, a.z * b.x - a.x * b.z, a.x * b.y - a.y * b.x)
  }

  /** The cross product is orthogonal to both factors. */
  lemma CrossOrthogonal(a: Vector3, b: Vector3)
    ensures Dot(Cross(a, b), a) == 0.0 && Dot(Cross(a, b), b) == 0.0
  {
  }

  /** The expansion det computes is the triple product of the rows. */
  lemma DetIsTripleProduct(m: Matrix3)
    ensures Det(m) == Dot(m.r0, Cross(m.r1, m.r2))
  {
  }

  /** Reversing the rows of a matrix negates its determinant. */
  lemma DetReversedRows(m: Matrix3)
    ensures Det(Matrix3(m.r2, m.r1, m.r0)) == -Det(m)
  {
  }

  /** The dot product is symmetric. */
  lemma DotSymmetric(a: Vector3, b: Vector3)
    ensures Dot(a, b) == Dot(b, a)
  {
  }

  /** Swapping the factors of a cross product negates it. */
  lemma CrossAntiCommutative(a: Vector3, b: Vector3)
    ensures Cross(b, a) == Neg(Cross(a, b))
  {
  }

  /** The squared length is zero for the zero vector and positive for every other vector. */
  lemma Norm2Positive(v: Vector3)
    ensures Norm2(v) >= 0.0
    ensures v == Zero ==> Norm2(v) == 0.0
    ensures v != Zero ==> Norm2(v) > 0.0
  {
    if v.x != 0.0 {
      SquarePositive(v.x);
    } else if v.y != 0.0 {
      SquarePositive(v.y);
    } else if v.z != 0.0 {
      SquarePositive(v.z);
    }
  }

  /**
   * The three determinants that unit_normal computes before it divides by the magnitude:
   * the normal of the plane through a, b and c, not normalised. It is the cross product
   * of the two edges leaving a.
   */
  function NormalOf(a: Point3, b: Point3, c: Point3): (n: Vector3)
    ensures n == Cross(Sub(b, a), Sub(c, a))
  {
    Point3(Det(Matrix3(Point3(1.0, a.y, a.z), Point3(1.0, b.y, b.z), Point3(1.0, c.y, c.z))),
           Det(Matrix3(Point3(a.x, 1.0, a.z), Point3(b.x, 1.0, b.z), Point3(c.x, 1.0, c.z))),
           Det(Matrix3(Point3(a.x, a.y, 1.0), Point3(b.x, b.y, 1.0), Point3(c.x, c.y, 1.0))))
  }

  /** Listing the three points in the opposite order negates the normal. */
  lemma NormalOfReversed(a: Point3, b: Point3, c: Point3)
    ensures NormalOf(c, b, a) == Neg(NormalOf(a, b, c))
  {
  }

  /** Three points are collinear when the normal through them vanishes. */
  predicate Collinear(a: Point3, b: Point3, c: Point3) {
    Cross(Sub(b, a), Sub(c, a)) == Zero
  }

  /** A square-root oracle: it maps every non-negative real to its non-negative square root. */
  ghost predicate IsSqrt(sqrt: real -> real) {
    forall x: real :: 0.0 <= x ==> 0.0 <= sqrt(x) && sqrt(x) * sqrt(x) == x
  }

  /** A unit vector pointing the same way as v: parallel to v with a positive projection on it. */
  predicate UnitAlong(u: Vector3, v: Vector3) {
    Norm2(u) == 1.0 && Cross(u, v) == Zero && Dot(u, v) > 0.0
  }

  /** The square root of a non-negative real vanishes exactly when the real does. */
  lemma SqrtZero(sqrt: real -> real, n: real)
    requires IsSqrt(sqrt) && n >= 0.0
    ensures sqrt(n) == 0.0 <==> n == 0.0
  {
    var m := sqrt(n);
    assert m * m == n;
    assert m == 0.0 ==> m * m == 0.0;
    if n == 0.0 {
      SquareZero(m);
    }
  }

  /** The magnitude unit_normal divides by: zero exactly for the zero vector. */
  lemma MagnitudeZero(v: Vector3, sqrt: real -> real)
    requires IsSqrt(sqrt)
    ensures sqrt(Norm2(v)) == 0.0 <==> v == Zero
  {
    Norm2Positive(v);
    SqrtZero(sqrt, Norm2(v));
  }

  /** Dividing each coordinate by m is scaling by 1 / m. */
  lemma DivideIsScale(v: Vector3, m: real)
    requires m != 0.0
    ensures Point3(v.x / m, v.y / m, v.z / m) == Scale(v, 1.0 / m)
  {
  }

  /** Scaling multiplies the squared length by the square of the factor. */
  lemma Norm2Scale(v: Vector3, k: real)
    ensures Norm2(Scale(v, k)) == k * k * Norm2(v)
  {
  }

  /** A positive multiple of a non-zero vector points along it; unit length when k*k*|v|^2 == 1. */
  lemma ScaleAlong(v: Vector3, k: real)
    requires v != Zero && k > 0.0 && k * k * Norm2(v) == 1.0
    ensures UnitAlong(Scale(v, k), v)
  {
    Norm2Scale(v, k);
    Norm2Positive(v);
    assert Dot(Scale(v, k), v) == k * Norm2(v);
    MulPositive(k, Norm2(v));
  }

  /** The reciprocal of a positive square root m of n scales n to one. */
  lemma ReciprocalSquare(m: real, n: real)
    requires m > 0.0 && m * m == n
    ensures 1.0 / m > 0.0 && (1.0 / m) * (1.0 / m) * n == 1.0
  {
    var k := 1.0 / m;
    assert k * m == 1.0;
  }

  /**
   * The second half of unit_normal: divide a vector by its magnitude, raising when the
   * magnitude is zero. The result is the unit vector pointing the same way as v.
   */
  function Normalize(v: Vector3, sqrt: real -> real): (r: Result<Vector3>)
    requires IsSqrt(sqrt)
    ensures r.Err? <==> v == Zero
    ensures r.Err? ==> r.error == ZeroNormal
    ensures r.Ok? ==> UnitAlong(r.value, v)
  {
    var m := sqrt(Norm2(v));
    MagnitudeZero(v, sqrt);
    if m == 0.0 then Err(ZeroNormal)
    else
      DivideIsScale(v, m);
      ReciprocalSquare(m, Norm2(v));
      ScaleAlong(v, 1.0 / m);
      Ok(Point3(v.x / m, v.y / m, v.z / m))
  }

  /** unit_normal: the unit normal of the plane through a, b and c, or ZeroNormal if they are collinear. */
  function UnitNormal(a: Point3, b: Point3, c: Point3, sqrt: real -> real): (r: Result<Vector3>)
    requires IsSqrt(sqrt)
    ensures r.Err? <==> Collinear(a, b, c)
    ensures r.Err? ==> r.error == ZeroNormal
    ensures r.Ok? ==> UnitAlong(r.value, NormalOf(a, b, c))
  {
    Normalize(NormalOf(a, b, c), sqrt)
  }

  /** The point p satisfies the plane equation of pl exactly. */
  predicate OnPlane(pl: Plane, p: Point3) {
    pl.a * p.x + pl.b * p.y + pl.c * p.z + pl.d == 0.0
  }

  /** The normal vector (a, b, c) of a plane equation. */
  function Coefficients(pl: Plane): Vector3 {
    Point3(pl.a, pl.b, pl.c)
  }

  /**
   * plane: the equation of the plane through a, b and c. Its coefficients (a, b, c) are exactly
   * the three determinants of unit_normal, and the three points satisfy it.
   */
  function PlaneThrough(a: Point3, b: Point3, c: Point3): (pl: Plane)
    ensures Coefficients(pl) == NormalOf(a, b, c)
    ensures OnPlane(pl, a) && OnPlane(pl, b) && OnPlane(pl, c)
  {
    var pa := (b.y - a.y) * (c.z - a.z) - (c.y - a.y) * (b.z - a.z);
    var pb := (b.z - a.z) * (c.x - a.x) - (c.z - a.z) * (b.x - a.x);
    var pc := (b.x - a.x) * (c.y - a.y) - (c.x - a.x) * (b.y - a.y);
    var pd := -1.0 * (pa * a.x + pb * a.y + pc * a.z);
    Plane(pa, pb, pc, pd)
  }

  /** get_height: solve the plane equation for z; dividing by c == 0 raises. */
  function GetHeight(pl: Plane, x: real, y: real): (r: Result<real>)
    ensures r.Err? <==> pl.c == 0.0
    ensures r.Err? ==> r.error == ZeroDivisionError
    ensures r.Ok? ==> OnPlane(pl, Point3(x, y, r.value))
  {
    if pl.c == 0.0 then Err(ZeroDivisionError)
    else
      var z := (-pl.a * x - pl.b * y - pl.d) / pl.c;
      assert pl.c * z == -pl.a * x - pl.b * y - pl.d;
      Ok(z)
  }

  /** get_y: solve the plane equation for y; dividing by b == 0 raises. */
  function GetY(pl: Plane, x: real, z: real): (r: Result<real>)
    ensures r.Err? <==> pl.b == 0.0
    ensures r.Err? ==> r.error == ZeroDivisionError
    ensures r.Ok? ==> OnPlane(pl, Point3(x, r.value, z))
  {
    if pl.b == 0.0 then Err(ZeroDivisionError)
    else
      var y := (-pl.a * x - pl.c * z - pl.d) / pl.b;
      assert pl.b * y == -pl.a * x - pl.c * z - pl.d;
      Ok(y)
  }

  /** For a point already on the plane, get_height gives back its own z. */
  lemma GetHeightRoundTrip(pl: Plane, p: Point3)
    requires OnPlane(pl, p) && pl.c != 0.0
    ensures GetHeight(pl, p.x, p.y) == Ok(p.z)
  {
    var z := GetHeight(pl, p.x, p.y).value;
    assert pl.c * z == pl.c * p.z;
  }

  /** For a point already on the plane, get_y gives back its own y. */
  lemma GetYRoundTrip(pl: Plane, p: Point3)
    requires OnPlane(pl, p) && pl.b != 0.0
    ensures GetY(pl, p.x, p.z) == Ok(p.y)
  {
    var y := GetY(pl, p.x, p.z).value;
    assert pl.b * y == pl.b * p.y;
  }

  /** Two points of a plane differ by a vector orthogonal to the plane's normal. */
  lemma OnPlaneDifference(pl: Plane, p: Point3, q: Point3)
    requires OnPlane(pl, p) && OnPlane(pl, q)
    ensures Dot(Sub(q, p), Coefficients(pl)) == 0.0
  {
  }

  /** The vector identity cross(cross(u, v), n) == v * dot(u, n) - u * dot(v, n). */
  lemma DoubleCross(u: Vector3, v: Vector3, n: Vector3)
    ensures Cross(Cross(u, v), n) == Sub(Scale(v, Dot(u, n)), Scale(u, Dot(v, n)))
  {
    DoubleCrossX(u, v, n);
    DoubleCrossY(u, v, n);
    DoubleCrossZ(u, v, n);
  }

  /** The x coordinate of the DoubleCross identity. */
  lemma DoubleCrossX(u: Vector3, v: Vector3, n: Vector3)
    ensures Cross(Cross(u, v), n).x == Dot(u, n) * v.x - Dot(v, n) * u.x
  {
    DoubleCrossCoordinate(Cross(Cross(u, v), n).x, Dot(u, n), Dot(v, n),
                          u.x, u.y, u.z, v.x, v.y, v.z, n.x, n.y, n.z);
  }

  /** The y coordinate of the DoubleCross identity. */
  lemma DoubleCrossY(u: Vector3, v: Vector3, n: Vector3)
    ensures Cross(Cross(u, v), n).y == Dot(u, n) * v.y - Dot(v, n) * u.y
  {
    DoubleCrossCoordinate(Cross(Cross(u, v), n).y, Dot(u, n), Dot(v, n),
                          u.y, u.z, u.x, v.y, v.z, v.x, n.y, n.z, n.x);
  }

  /** The z coordinate of the DoubleCross identity. */
  lemma DoubleCrossZ(u: Vector3, v: Vector3, n: Vector3)
    ensures Cross(Cross(u, v), n).z == Dot(u, n) * v.z - Dot(v, n) * u.z
  {
    DoubleCrossCoordinate(Cross(Cross(u, v), n).z, Dot(u, n), Dot(v, n),
                          u.z, u.x, u.y, v.z, v.x, v.y, n.z, n.x, n.y);
  }

  /** One coordinate of the DoubleCross identity, over the coordinates taken in cyclic order. */
  lemma DoubleCrossCoordinate(c: real, un: real, vn: real, ux: real, uy: real, uz: real,
                              vx: real, vy: real, vz: real, nx: real, ny: real, nz: real)
    requires c == (uz * vx - ux * vz) * nz - (ux * vy - uy * vx) * ny
    requires un == ux * nx + uy * ny + uz * nz && vn == vx * nx + vy * ny + vz * nz
    ensures c == un * vx - vn * ux
  {
  }

  /**
   * The normal of any three points of a plane is parallel to the plane's own normal:
   * their cross product vanishes.
   */
  lemma InPlaneNormalParallel(pl: Plane, p: Point3, q: Point3, r: Point3)
    requires OnPlane(pl, p) && OnPlane(pl, q) && OnPlane(pl, r)
    ensures Cross(NormalOf(p, q, r), Coefficients(pl)) == Zero
  {
    OnPlaneDifference(pl, p, q);
    OnPlaneDifference(pl, p, r);
    DoubleCross(Sub(q, p), Sub(r, p), Coefficients(pl));
  }

  /** One coordinate of a parallel vector: from tc * n == nc * d follows tc == (d / n) * nc. */
  lemma CoordinateMultiple(tc: real, nc: real, d: real, n: real)
    requires n != 0.0 && tc * n == nc * d
    ensures tc == (d / n) * nc
  {
    var k := d / n;
    assert k * n == d;
    assert (tc - k * nc) * n == 0.0;
    ZeroProduct(tc - k * nc, n);
  }

  /** A vector parallel to a non-zero vector n is the multiple dot(t, n) / |n|^2 of it. */
  lemma ParallelIsMultiple(t: Vector3, n: Vector3)
    requires n != Zero && Cross(t, n) == Zero
    ensures Norm2(n) > 0.0 && t == Scale(n, Dot(t, n) / Norm2(n))
  {
    Norm2Positive(n);
    assert t.y * n.z == t.z * n.y && t.z * n.x == t.x * n.z && t.x * n.y == t.y * n.x;
    assert t.x * Norm2(n) == n.x * Dot(t, n);
    assert t.y * Norm2(n) == n.y * Dot(t, n);
    assert t.z * Norm2(n) == n.z * Dot(t, n);
    CoordinateMultiple(t.x, n.x, Dot(t, n), Norm2(n));
    CoordinateMultiple(t.y, n.y, Dot(t, n), Norm2(n));
    CoordinateMultiple(t.z, n.z, Dot(t, n), Norm2(n));
  }

  /** Every vector is orthogonal to the zero vector. */
  lemma DotZero(u: Vector3)
    ensures Dot(u, Zero) == 0.0
  {
  }

  /** Two unit vectors that both point the same way as a non-zero vector are equal. */
  lemma UnitAlongUnique(u: Vector3, w: Vector3, v: Vector3)
    requires v != Zero && UnitAlong(u, v) && UnitAlong(w, v)
    ensures u == w
  {
    ParallelIsMultiple(u, v);
    ParallelIsMultiple(w, v);
    var n := Norm2(v);
    var ku, kw := Dot(u, v) / n, Dot(w, v) / n;
    DivPositive(Dot(u, v), n);
    DivPositive(Dot(w, v), n);
    Norm2Scale(v, ku);
    Norm2Scale(v, kw);
    assert (ku * ku - kw * kw) * n == 0.0;
    ZeroProduct(ku * ku - kw * kw, n);
    SquareRootUnique(ku, kw);
  }

  /** The result of Normalize is the only unit vector pointing the same way as v. */
  lemma NormalizeUnique(v: Vector3, u: Vector3, sqrt: real -> real)
    requires IsSqrt(sqrt) && UnitAlong(u, v)
    ensures Normalize(v, sqrt) == Ok(u)
  {
    if v == Zero {
      DotZero(u);
    } else {
      UnitAlongUnique(Normalize(v, sqrt).value, u, v);
    }
  }

  /** A non-zero multiple of a non-zero vector is non-zero. */
  lemma ScaleNonZero(v: Vector3, k: real)
    requires v != Zero && k != 0.0
    ensures Scale(v, k) != Zero
  {
    if Scale(v, k) == Zero {
      ZeroProduct(v.x, k);
      ZeroProduct(v.y, k);
      ZeroProduct(v.z, k);
    }
  }

  /** Scaling the second factor scales the cross product and the dot product. */
  lemma ScaleSecondFactor(u: Vector3, v: Vector3, k: real)
    ensures Cross(u, Scale(v, k)) == Scale(Cross(u, v), k)
    ensures Dot(u, Scale(v, k)) == k * Dot(u, v)
  {
    var c, w := Cross(u, v), Cross(u, Scale(v, k));
    ScaleCoordinate(w.x, c.x, u.y, v.z, u.z, v.y, k);
    ScaleCoordinate(w.y, c.y, u.z, v.x, u.x, v.z, k);
    ScaleCoordinate(w.z, c.z, u.x, v.y, u.y, v.x, k);
    ScaleDot(u, v, k);
  }

  /** One coordinate of the cross product scales with its second factor. */
  lemma ScaleCoordinate(scaled: real, plain: real, a: real, b: real, c: real, d: real, k: real)
    requires scaled == a * (k * b) - c * (k * d) && plain == a * b - c * d
    ensures scaled == k * plain
  {
    assert a * (k * b) == k * (a * b);
    assert c * (k * d) == k * (c * d);
  }

  /** The dot product scales with its second factor. */
  lemma ScaleDot(u: Vector3, v: Vector3, k: real)
    ensures Dot(u, Scale(v, k)) == k * Dot(u, v)
  {
    assert u.x * (k * v.x) == k * (u.x * v.x);
    assert u.y * (k * v.y) == k * (u.y * v.y);
    assert u.z * (k * v.z) == k * (u.z * v.z);
  }

  /** A vector orthogonal to c is orthogonal to every multiple of c. */
  lemma MultipleOrthogonal(w: Vector3, c: Vector3, k: real)
    requires Dot(w, c) == 0.0
    ensures Dot(w, Scale(c, k)) == 0.0
  {
    ScaleSecondFactor(w, c, k);
  }

  /**
   * Normalising a positive multiple of v gives the unit vector of v; normalising a negative
   * multiple gives its opposite.
   */
  lemma NormalizeScaled(v: Vector3, k: real, sqrt: real -> real)
    requires IsSqrt(sqrt) && v != Zero && k != 0.0
    ensures k > 0.0 ==> Normalize(Scale(v, k), sqrt) == Normalize(v, sqrt)
    ensures k < 0.0 ==> Normalize(Scale(v, k), sqrt) == Ok(Neg(Normalize(v, sqrt).value))
  {
    ScaleNonZero(v, k);
    var w := Normalize(Scale(v, k), sqrt).value;
    var u := Normalize(v, sqrt).value;
    ScaleSecondFactor(w, v, k);
    var c := Cross(w, v);
    ZeroProduct(c.x, k);
    ZeroProduct(c.y, k);
    ZeroProduct(c.z, k);
    if k > 0.0 {
      PositiveFactor(k, Dot(w, v));
      UnitAlongUnique(w, u, v);
    } else {
      NegativeFactor(k, Dot(w, v));
      assert UnitAlong(Neg(w), v);
      UnitAlongUnique(Neg(w), u, v);
    }
  }

  /** The unit vector of a non-zero n is n scaled by k, where k*k*|n|^2 == 1. */
  lemma NormalizeFactor(n: Vector3, sqrt: real -> real)
    requires IsSqrt(sqrt) && n != Zero
    ensures Normalize(n, sqrt).value == Scale(n, 1.0 / sqrt(Norm2(n)))
    ensures (1.0 / sqrt(Norm2(n))) * (1.0 / sqrt(Norm2(n))) * Norm2(n) == 1.0
  {
    var m := sqrt(Norm2(n));
    MagnitudeZero(n, sqrt);
    DivideIsScale(n, m);
    ReciprocalSquare(m, Norm2(n));
  }

  /** ScaledBound, instantiated at the projection of w on n. */
  lemma ProjectionBound(w: Vector3, n: Vector3, k: real, eps: real)
    requires k * k * Norm2(n) == 1.0 && Norm2(n) > 0.0 && eps >= 0.0
    ensures Abs(k * Dot(w, n)) <= eps <==> Dot(w, n) * Dot(w, n) <= eps * eps * Norm2(n)
  {
    ScaledBound(k, Dot(w, n), Norm2(n), eps);
  }

  /**
   * A tolerance test against the unit normal, squared: |w . n / |n|| <= eps exactly when
   * (w . n)^2 <= eps^2 * |n|^2. The right-hand side needs no square root.
   */
  lemma ProjectionSquared(w: Vector3, n: Vector3, eps: real, sqrt: real -> real)
    requires IsSqrt(sqrt) && n != Zero && eps >= 0.0
    ensures Abs(Dot(w, Normalize(n, sqrt).value)) <= eps
        <==> Dot(w, n) * Dot(w, n) <= eps * eps * Norm2(n)
  {
    NormalizeFactor(n, sqrt);
    var k := 1.0 / sqrt(Norm2(n));
    ScaleSecondFactor(w, n, k);
    Norm2Positive(n);
    assert Dot(w, Normalize(n, sqrt).value) == k * Dot(w, n);
    ProjectionBound(w, n, k, eps);
  }
}
