/**
 * Orientation helpers of polygon3dmodule.py: compare_normals, reverse_vertices, and the winding
 * fix that triangulation applies to every triangle it emits.
 */
module Orientation {
  import opened Outcomes
  import opened RealArith
  import opened Vectors

  /** The tolerance of compare_normals. */
  const NormalTolerance: real := 0.0001

  /**
   * compare_normals: the if/elif chain that decides whether two normals agree. They agree
   * exactly when no component differs by more than the tolerance.
   */
  function CompareNormals(n1: Vector3, n2: Vector3): (equal: bool)
    ensures equal <==>
      Abs(n1.x - n2.x) <= NormalTolerance && Abs(n1.y - n2.y) <= NormalTolerance && Abs(n1.z - n2.z) <= NormalTolerance
  {
    if Abs(n1.x - n2.x) > NormalTolerance then false
    else if Abs(n1.y - n2.y) > NormalTolerance then false
    else if Abs(n1.z - n2.z) > NormalTolerance then false
    else true
  }

  /** Every normal agrees with itself. */
  lemma CompareNormalsReflexive(n: Vector3)
    ensures CompareNormals(n, n)
  {
  }

  /** Agreement does not depend on the order of the two normals. */
  lemma CompareNormalsSymmetric(n1: Vector3, n2: Vector3)
    ensures CompareNormals(n1, n2) == CompareNormals(n2, n1)
  {
  }

  /** A unit normal never agrees with its opposite: the tolerance is far below the gap of 2. */
  lemma CompareNormalsOpposite(n: Vector3)
    requires Norm2(n) == 1.0
    ensures !CompareNormals(n, Neg(n))
  {
    if CompareNormals(n, Neg(n)) {
      var h := NormalTolerance / 2.0;
      SquareBelow(n.x, h);
      SquareBelow(n.y, h);
      SquareBelow(n.z, h);
    }
  }

  /** The list reversed: its last element first, then the rest reversed. */
  function Reversed<T>(s: seq<T>): (r: seq<T>)
    ensures |r| == |s|
    ensures forall k | 0 <= k < |s| :: r[k] == s[|s| - 1 - k]
  {
    if |s| == 0 then [] else [s[|s| - 1]] + Reversed(s[..|s| - 1])
  }

  /** reverse_vertices: appends the elements from the last index down to 0. */
  method ReverseVertices<T>(vertices: seq<T>) returns (reversed: seq<T>)
    ensures reversed == Reversed(vertices)
  {
    reversed := [];
    var nv := |vertices|;
    var i := nv - 1;
    while i >= 0
      invariant -1 <= i < nv
      invariant |reversed| == nv - 1 - i
      invariant forall k | 0 <= k < |reversed| :: reversed[k] == vertices[nv - 1 - k]
    {
      reversed := reversed + [vertices[i]];
      i := i - 1;
    }
  }

  /** Reversing twice gives the list back. */
  lemma ReversedInvolution<T>(s: seq<T>)
    ensures Reversed(Reversed(s)) == s
  {
    var r := Reversed(Reversed(s));
    assert |r| == |s|;
    forall k | 0 <= k < |s|
      ensures r[k] == s[k]
    {
      assert r[k] == Reversed(s)[|s| - 1 - k];
    }
  }

  /** Reversing a triangle negates its normal. */
  lemma ReversedTriangleNormal(tri: seq<Point3>)
    requires |tri| == 3
    ensures NormalOf(Reversed(tri)[0], Reversed(tri)[1], Reversed(tri)[2]) == Neg(NormalOf(tri[0], tri[1], tri[2]))
  {
    NormalOfReversed(tri[0], tri[1], tri[2]);
  }

  /**
   * The winding fix of triangulation for one triangle: keep it when its unit normal agrees with
   * the polygon's normal, otherwise emit it reversed. A degenerate triangle raises ZeroNormal.
   */
  function FixWinding(normal: Vector3, tri: seq<Point3>, sqrt: real -> real): (r: Result<seq<Point3>>)
    requires IsSqrt(sqrt) && |tri| == 3
    ensures r.Err? <==> Collinear(tri[0], tri[1], tri[2])
    ensures r.Err? ==> r.error == ZeroNormal
    ensures r.Ok? ==> r.value == tri || r.value == Reversed(tri)
    ensures r.Ok? ==> (r.value == tri <==> CompareNormals(normal, UnitNormal(tri[0], tri[1], tri[2], sqrt).value))
  {
    var triNormal :- UnitNormal(tri[0], tri[1], tri[2], sqrt);
    if CompareNormals(normal, triNormal) then Ok(tri) else Ok(Reversed(tri))
  }

  /** Negating a multiple of c is taking the opposite multiple. */
  lemma NegScale(c: Vector3, k: real)
    ensures Neg(Scale(c, k)) == Scale(c, -k)
  {
  }

  /**
   * The winding fix makes every triangle of a plane face the polygon's way: when its three points
   * lie on the plane pl and normal is the unit normal of pl, the emitted triangle has exactly
   * that unit normal.
   */
  lemma FixWindingAgrees(pl: Plane, tri: seq<Point3>, sqrt: real -> real)
    requires IsSqrt(sqrt) && |tri| == 3 && Coefficients(pl) != Zero
    requires OnPlane(pl, tri[0]) && OnPlane(pl, tri[1]) && OnPlane(pl, tri[2])
    requires !Collinear(tri[0], tri[1], tri[2])
    ensures var r := FixWinding(Normalize(Coefficients(pl), sqrt).value, tri, sqrt);
      r.Ok? && UnitNormal(r.value[0], r.value[1], r.value[2], sqrt) == Normalize(Coefficients(pl), sqrt)
  {
    var c := Coefficients(pl);
    var n := Normalize(c, sqrt).value;
    var t := NormalOf(tri[0], tri[1], tri[2]);
    InPlaneNormalParallel(pl, tri[0], tri[1], tri[2]);
    ParallelIsMultiple(t, c);
    var k := Dot(t, c) / Norm2(c);
    assert k != 0.0;
    NormalizeScaled(c, k, sqrt);
    ReversedTriangleNormal(tri);
    if k > 0.0 {
      CompareNormalsReflexive(n);
    } else {
      CompareNormalsOpposite(n);
      NegScale(c, k);
      NormalizeScaled(c, -k, sqrt);
    }
  }
}
