/**
 * Ring validity of polygon3dmodule.py: isPolyPlanar and isPolyValid. A ring is the list of
 * points of a polygon boundary, closed by repeating its first point at the end.
 */
module Validity {
  import opened Outcomes
  import opened RealArith
  import opened Vectors

  /** The tolerance eps of isPolyPlanar. */
  const PlanarityTolerance: real := 0.01

  /** p lies within the tolerance of the plane through p0 with unit normal u. */
  predicate NearPlane(p0: Point3, p: Point3, u: Vector3) {
    Abs(Dot(Sub(p, p0), u)) <= PlanarityTolerance
  }

  /** The same test, squared, against the unnormalised normal n: no square root is needed. */
  predicate NearPlaneSquared(p0: Point3, p: Point3, n: Vector3) {
    WithinSquared(Dot(Sub(p, p0), n), Norm2(n))
  }

  /** d * d <= eps^2 * n2: the squared tolerance test on an offset d and a squared length n2. */
  predicate WithinSquared(d: real, n2: real) {
    d * d <= PlanarityTolerance * PlanarityTolerance * n2
  }

  /** A zero offset passes the squared test. */
  lemma ZeroWithin(d: real, n2: real)
    requires d == 0.0 && n2 >= 0.0
    ensures WithinSquared(d, n2)
  {
    ZeroSquareBelow(d, PlanarityTolerance * PlanarityTolerance, n2);
  }

  /** The normal of the first three points of a ring, before normalisation. */
  function RingNormal(ring: seq<Point3>): Vector3
    requires |ring| >= 3
  {
    NormalOf(ring[0], ring[1], ring[2])
  }

  /** Every point from index 3 on passes the tolerance test exactly when it passes the squared test. */
  lemma NearPlaneAllSquared(ring: seq<Point3>, sqrt: real -> real)
    requires IsSqrt(sqrt) && |ring| >= 3 && !Collinear(ring[0], ring[1], ring[2])
    ensures (forall i | 3 <= i < |ring| :: NearPlane(ring[0], ring[i], UnitNormal(ring[0], ring[1], ring[2], sqrt).value))
        <==> (forall i | 3 <= i < |ring| :: NearPlaneSquared(ring[0], ring[i], RingNormal(ring)))
  {
    forall i | 3 <= i < |ring|
      ensures NearPlane(ring[0], ring[i], UnitNormal(ring[0], ring[1], ring[2], sqrt).value)
          <==> NearPlaneSquared(ring[0], ring[i], RingNormal(ring))
    {
      ProjectionSquared(Sub(ring[i], ring[0]), RingNormal(ring), PlanarityTolerance, sqrt);
    }
  }

  /**
   * What isPolyPlanar returns or raises: IndexError for fewer than three points, ZeroNormal when
   * the first three are collinear, and otherwise whether every later point lies within 0.01 of
   * their plane. Points 0 to 2 are never tested.
   */
  function Planar(ring: seq<Point3>, sqrt: real -> real): (r: Result<bool>)
    requires IsSqrt(sqrt)
    ensures r.Err? <==> |ring| < 3 || Collinear(ring[0], ring[1], ring[2])
    ensures r.Err? ==> r.error == if |ring| < 3 then IndexError else ZeroNormal
    ensures r.Ok? ==>
      (r.value <==> forall i | 3 <= i < |ring| :: NearPlaneSquared(ring[0], ring[i], RingNormal(ring)))
  {
    if |ring| < 3 then Err(IndexError)
    else
      var u :- UnitNormal(ring[0], ring[1], ring[2], sqrt);
      NearPlaneAllSquared(ring, sqrt);
      Ok(forall i | 3 <= i < |ring| :: NearPlane(ring[0], ring[i], u))
  }

  /** isPolyPlanar: the loop over the points from index 3 on, as the source writes it. */
  method IsPolyPlanar(ring: seq<Point3>, sqrt: real -> real) returns (r: Result<bool>)
    requires IsSqrt(sqrt)
    ensures r == Planar(ring, sqrt)
  {
    if |ring| < 3 {
      return Err(IndexError);
    }
    var normal := UnitNormal(ring[0], ring[1], ring[2], sqrt);
    if normal.Err? {
      return Err(normal.error);
    }
    var n := normal.value;
    var planar := true;
    var i := 3;
    while i < |ring|
      invariant 3 <= i <= |ring|
      invariant planar <==> forall j | 3 <= j < i :: NearPlane(ring[0], ring[j], n)
    {
      var vector := Sub(ring[i], ring[0]);
      if Abs(Dot(vector, n)) > PlanarityTolerance {
        planar := false;
      }
      i := i + 1;
    }
    return Ok(planar);
  }

  /**
   * isPolyValid: a ring is valid when it is closed, has at least four points (the closing point
   * included) and is planar. The planarity test always runs, so its errors reach the caller
   * even when an earlier test has already failed; an empty ring raises at its first point.
   */
  function IsPolyValid(ring: seq<Point3>, sqrt: real -> real): (r: Result<bool>)
    requires IsSqrt(sqrt)
    ensures r.Err? <==> |ring| < 3 || Collinear(ring[0], ring[1], ring[2])
    ensures r.Err? ==> r.error == if |ring| < 3 then IndexError else ZeroNormal
    ensures r.Ok? ==> (r.value <==> ring[0] == ring[|ring| - 1] && 4 <= |ring| && Planar(ring, sqrt) == Ok(true))
  {
    if |ring| == 0 then Err(IndexError)
    else
      var closed := ring[0] == ring[|ring| - 1];
      var enough := 4 <= |ring|;
      var planar :- Planar(ring, sqrt);
      Ok(closed && enough && planar)
  }

  /** A ring is valid exactly when it is closed, has four points or more and passes the squared test. */
  lemma IsPolyValidIff(ring: seq<Point3>, sqrt: real -> real)
    requires IsSqrt(sqrt)
    ensures IsPolyValid(ring, sqrt) == Ok(true) <==>
      && 4 <= |ring|
      && ring[0] == ring[|ring| - 1]
      && !Collinear(ring[0], ring[1], ring[2])
      && forall i | 3 <= i < |ring| :: NearPlaneSquared(ring[0], ring[i], RingNormal(ring))
  {
  }

  /** A point whose offset is orthogonal to n passes the squared test. */
  lemma OrthogonalIsNear(p0: Point3, p: Point3, n: Vector3)
    requires Dot(Sub(p, p0), n) == 0.0
    ensures NearPlaneSquared(p0, p, n)
  {
    Norm2Positive(n);
    ZeroWithin(Dot(Sub(p, p0), n), Norm2(n));
  }

  /** A point of a plane is at distance zero from it along any multiple of the plane's normal. */
  lemma OnPlaneNearPlane(pl: Plane, p0: Point3, p: Point3, n: Vector3)
    requires OnPlane(pl, p0) && OnPlane(pl, p) && Coefficients(pl) != Zero
    requires Cross(n, Coefficients(pl)) == Zero
    ensures NearPlaneSquared(p0, p, n)
  {
    ParallelIsMultiple(n, Coefficients(pl));
    OnPlaneDifference(pl, p0, p);
    MultipleOrthogonal(Sub(p, p0), Coefficients(pl), Dot(n, Coefficients(pl)) / Norm2(Coefficients(pl)));
    OrthogonalIsNear(p0, p, n);
  }

  /**
   * A closed ring of at least four points that lie exactly on one plane, with three
   * non-collinear leading points, is valid.
   */
  lemma ExactlyPlanarIsValid(ring: seq<Point3>, pl: Plane, sqrt: real -> real)
    requires IsSqrt(sqrt) && 4 <= |ring| && ring[0] == ring[|ring| - 1]
    requires !Collinear(ring[0], ring[1], ring[2]) && Coefficients(pl) != Zero
    requires forall i | 0 <= i < |ring| :: OnPlane(pl, ring[i])
    ensures IsPolyValid(ring, sqrt) == Ok(true)
  {
    InPlaneNormalParallel(pl, ring[0], ring[1], ring[2]);
    forall i | 3 <= i < |ring|
      ensures NearPlaneSquared(ring[0], ring[i], RingNormal(ring))
    {
      OnPlaneNearPlane(pl, ring[0], ring[i], RingNormal(ring));
    }
    IsPolyValidIff(ring, sqrt);
  }
}
