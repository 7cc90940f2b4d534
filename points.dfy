/**
 * Small point utilities of polygon3dmodule.py: centroid, GMLstring2points, smallestPoint,
 * highestPoint and get3DArea.
 */
module PointUtils {
  import opened Outcomes
  import opened RealArith
  import opened Vectors
  import opened Orientation

  function Add(p: Point3, q: Point3): Point3 {
    Point3(p.x + q.x, p.y + q.y, p.z + q.z)
  }

  // ---------------------------------------------------------------- centroid

  /** The coordinate-wise sum of a list of points, accumulated from the front. */
  function SumPoints(pts: seq<Point3>): Point3 {
    if |pts| == 0 then Zero else Add(SumPoints(pts[..|pts| - 1]), pts[|pts| - 1])
  }

  /** What centroid returns: the coordinate sums divided by the count; an empty list divides by zero. */
  function CentroidOf(pts: seq<Point3>): Result<Point3> {
    if |pts| == 0 then Err(ZeroDivisionError)
    else
      var s := SumPoints(pts);
      var n := |pts| as real;
      Ok(Point3(s.x / n, s.y / n, s.z / n))
  }

  /** centroid: the running sums over the list, then one division per coordinate. */
  method Centroid(points: seq<Point3>) returns (r: Result<Point3>)
    ensures r == CentroidOf(points)
  {
    var sumX, sumY, sumZ := 0.0, 0.0, 0.0;
    var n := |points| as real;
    var i := 0;
    while i < |points|
      invariant 0 <= i <= |points|
      invariant Point3(sumX, sumY, sumZ) == SumPoints(points[..i])
    {
      assert points[..i + 1][..i] == points[..i];
      sumX := sumX + points[i].x;
      sumY := sumY + points[i].y;
      sumZ := sumZ + points[i].z;
      i := i + 1;
    }
    assert points[..i] == points;
    if n == 0.0 {
      return Err(ZeroDivisionError);
    }
    return Ok(Point3(sumX / n, sumY / n, sumZ / n));
  }

  /** The centroid times the number of points is the sum of the points. */
  lemma CentroidTimesCount(pts: seq<Point3>)
    requires |pts| > 0
    ensures CentroidOf(pts).Ok? && Scale(CentroidOf(pts).value, |pts| as real) == SumPoints(pts)
  {
    var s := SumPoints(pts);
    var n := |pts| as real;
    assert n * (s.x / n) == s.x;
    assert n * (s.y / n) == s.y;
    assert n * (s.z / n) == s.z;
  }

  /** The sum of points of a plane satisfies the plane equation with d counted once per point. */
  lemma SumOnPlane(pl: Plane, pts: seq<Point3>)
    requires forall i | 0 <= i < |pts| :: OnPlane(pl, pts[i])
    ensures var s := SumPoints(pts); pl.a * s.x + pl.b * s.y + pl.c * s.z + (|pts| as real) * pl.d == 0.0
  {
    if |pts| > 0 {
      SumOnPlane(pl, pts[..|pts| - 1]);
      assert OnPlane(pl, pts[|pts| - 1]);
    }
  }

  /** The centroid of points of a plane lies on that plane. */
  lemma CentroidOnPlane(pl: Plane, pts: seq<Point3>)
    requires |pts| > 0 && forall i | 0 <= i < |pts| :: OnPlane(pl, pts[i])
    ensures CentroidOf(pts).Ok? && OnPlane(pl, CentroidOf(pts).value)
  {
    SumOnPlane(pl, pts);
    CentroidTimesCount(pts);
    var c := CentroidOf(pts).value;
    var n := |pts| as real;
    assert n * (pl.a * c.x + pl.b * c.y + pl.c * c.z + pl.d) == 0.0;
    ZeroProduct(pl.a * c.x + pl.b * c.y + pl.c * c.z + pl.d, n);
  }

  // ------------------------------------------------------- GMLstring2points

  /** The coordinate list read three at a time into points, from the front. */
  function GroupTriples(coords: seq<real>): (pts: seq<Point3>)
    requires |coords| % 3 == 0
    ensures 3 * |pts| == |coords|
    ensures forall k | 0 <= k < |pts| :: pts[k] == Point3(coords[3 * k], coords[3 * k + 1], coords[3 * k + 2])
  {
    if |coords| == 0 then []
    else
      var m := |coords| - 3;
      GroupTriples(coords[..m]) + [Point3(coords[m], coords[m + 1], coords[m + 2])]
  }

  /** The points written out as one coordinate list, as a posList holds them. */
  function Flatten(pts: seq<Point3>): (coords: seq<real>)
    ensures |coords| == 3 * |pts|
  {
    if |pts| == 0 then []
    else
      var p := pts[|pts| - 1];
      Flatten(pts[..|pts| - 1]) + [p.x, p.y, p.z]
  }

  /** Grouping a flattened list of points gives the points back. */
  lemma {:induction false} GroupFlatten(pts: seq<Point3>)
    ensures GroupTriples(Flatten(pts)) == pts
  {
    if |pts| > 0 {
      var init := pts[..|pts| - 1];
      GroupFlatten(init);
      var f := Flatten(pts);
      assert f[..|f| - 3] == Flatten(init);
    }
  }

  /** Flattening the grouped points gives the coordinate list back. */
  lemma {:induction false} FlattenGroup(coords: seq<real>)
    requires |coords| % 3 == 0
    ensures Flatten(GroupTriples(coords)) == coords
  {
    if |coords| > 0 {
      var m := |coords| - 3;
      FlattenGroup(coords[..m]);
      var g := GroupTriples(coords);
      assert g[..|g| - 1] == GroupTriples(coords[..m]);
      assert coords == coords[..m] + [coords[m], coords[m + 1], coords[m + 2]];
    }
  }

  /**
   * GMLstring2points on the already split and converted coordinates: the length must be a
   * multiple of three, then each triple becomes one point.
   */
  method GmlStringToPoints(coords: seq<real>) returns (r: Result<seq<Point3>>)
    ensures |coords| % 3 != 0 ==> r == Err(AssertionFailed)
    ensures |coords| % 3 == 0 ==> r == Ok(GroupTriples(coords))
  {
    if |coords| % 3 != 0 {
      return Err(AssertionFailed);
    }
    var listPoints: seq<Point3> := [];
    var i := 0;
    while i < |coords|
      invariant 0 <= i <= |coords| && i % 3 == 0
      invariant listPoints == GroupTriples(coords[..i])
    {
      assert coords[..i + 3][..i] == coords[..i];
      listPoints := listPoints + [Point3(coords[i], coords[i + 1], coords[i + 2])];
      i := i + 3;
    }
    assert coords[..i] == coords;
    return Ok(listPoints);
  }

  // ------------------------------------------------ smallestPoint, highestPoint

  /** The order of the sort key (x, y, z): lexicographic on the coordinates. */
  predicate LexLe(p: Point3, q: Point3) {
    p.x < q.x || (p.x == q.x && (p.y < q.y || (p.y == q.y && p.z <= q.z)))
  }

  predicate SortedLex(s: seq<Point3>) {
    forall i, j | 0 <= i < j < |s| :: LexLe(s[i], s[j])
  }

  /** Insert p into a sorted list before the first element above it. */
  function InsertLex(p: Point3, s: seq<Point3>): (r: seq<Point3>)
    ensures |r| == |s| + 1
    ensures multiset(r) == multiset(s) + multiset{p}
  {
    if |s| == 0 then [p]
    else if LexLe(p, s[0]) then [p] + s
    else
      assert s == [s[0]] + s[1..];
      [s[0]] + InsertLex(p, s[1..])
  }

  /** sorted(points, key=(x, y, z)), as an insertion sort. */
  function SortLex(s: seq<Point3>): (r: seq<Point3>)
    ensures |r| == |s|
    ensures multiset(r) == multiset(s)
  {
    if |s| == 0 then []
    else
      assert s == [s[0]] + s[1..];
      InsertLex(s[0], SortLex(s[1..]))
  }

  lemma {:induction false} InsertLexSorted(p: Point3, s: seq<Point3>)
    requires SortedLex(s)
    ensures SortedLex(InsertLex(p, s))
  {
    if |s| > 0 && !LexLe(p, s[0]) {
      InsertLexSorted(p, s[1..]);
      var r := InsertLex(p, s);
      forall i, j | 0 <= i < j < |r|
        ensures LexLe(r[i], r[j])
      {
        if i == 0 {
          assert r[j] in multiset(InsertLex(p, s[1..]));
          assert r[j] == p || r[j] in multiset(s[1..]);
          if r[j] != p {
            var k :| 0 <= k < |s[1..]| && s[1..][k] == r[j];
            assert LexLe(s[0], s[k + 1]);
          }
        }
      }
    }
  }

  /** The sort yields the points in key order. */
  lemma {:induction false} SortLexSorted(s: seq<Point3>)
    ensures SortedLex(SortLex(s))
  {
    if |s| > 0 {
      SortLexSorted(s[1..]);
      InsertLexSorted(s[0], SortLex(s[1..]));
    }
  }

  /**
   * smallestPoint: the first point of the sorted list; an empty list raises IndexError.
   * The result is a point of the list that no other point precedes in key order.
   */
  function SmallestPoint(pts: seq<Point3>): (r: Result<Point3>)
    ensures r.Err? <==> |pts| == 0
    ensures r.Err? ==> r.error == IndexError
    ensures r.Ok? ==> r.value in pts && forall q | q in pts :: LexLe(r.value, q)
  {
    var sorted := SortLex(pts);
    if |sorted| == 0 then Err(IndexError)
    else
      SortedBounds(pts);
      Ok(sorted[0])
  }

  /** The first and last element of the sorted list bound every point of the list. */
  lemma SortedBounds(pts: seq<Point3>)
    requires |pts| > 0
    ensures SortLex(pts)[0] in pts && SortLex(pts)[|pts| - 1] in pts
    ensures forall q | q in pts :: LexLe(SortLex(pts)[0], q) && LexLe(q, SortLex(pts)[|pts| - 1])
  {
    var s := SortLex(pts);
    SortLexSorted(pts);
    assert s[0] in multiset(pts);
    assert s[|s| - 1] in multiset(pts);
    forall q | q in pts
      ensures LexLe(s[0], q) && LexLe(q, s[|s| - 1])
    {
      assert q in multiset(s);
      var k :| 0 <= k < |s| && s[k] == q;
      if k > 0 {
        assert LexLe(s[0], s[k]);
      }
      if k < |s| - 1 {
        assert LexLe(s[k], s[|s| - 1]);
      }
    }
  }

  /** What highestPoint returns with a reference point: a point, or the empty list []. */
  datatype Highest = NoPoint | SomePoint(point: Point3)

  /**
   * The index the loop of highestPoint stops at, scanning the sorted list down from index i:
   * the first index whose z differs from z0; the scan never looks below index 1 and ends
   * there if every point it saw had z == z0.
   */
  function StopIndex(s: seq<Point3>, z0: real, i: int): (j: int)
    requires 1 <= i < |s|
    ensures 1 <= j <= i
    ensures s[j].z != z0 || j == 1
    ensures forall k | j < k <= i :: s[k].z == z0
    decreases i
  {
    if s[i].z != z0 || i == 1 then i else StopIndex(s, z0, i - 1)
  }

  /**
   * highestPoint: without a reference point, the last point of the sorted list (IndexError when
   * empty). With one, the loop over the indices -1 down to -(n-1) keeps the last point it read and
   * stops at the first whose z differs from the reference z; with fewer than two points it
   * reads none and returns [].
   */
  method HighestPoint(pts: seq<Point3>, a: Option<Point3>) returns (r: Result<Highest>)
    ensures a.None? && |pts| == 0 ==> r == Err(IndexError)
    ensures a.None? && |pts| > 0 ==> r == Ok(SomePoint(SortLex(pts)[|pts| - 1]))
    ensures a.Some? && |pts| <= 1 ==> r == Ok(NoPoint)
    ensures a.Some? && |pts| > 1 ==>
      r == Ok(SomePoint(SortLex(pts)[StopIndex(SortLex(pts), a.value.z, |pts| - 1)]))
  {
    var sorted := SortLex(pts);
    var highest := NoPoint;
    if a.Some? {
      var n := |pts|;
      var i := n - 1;
      while i >= 1
        invariant 0 <= i <= n - 1 || (n == 0 && i == -1)
        invariant i == n - 1 ==> highest == NoPoint
        invariant i < n - 1 ==> highest == SomePoint(sorted[i + 1]) && n > 1
        invariant i < n - 1 ==> forall k | i + 1 < k < n :: sorted[k].z == a.value.z
        invariant i < n - 1 ==> sorted[i + 1].z == a.value.z
      {
        highest := SomePoint(sorted[i]);
        if sorted[i].z != a.value.z {
          break;
        }
        i := i - 1;
      }
      return Ok(highest);
    } else {
      if |sorted| == 0 {
        return Err(IndexError);
      }
      return Ok(SomePoint(sorted[|sorted| - 1]));
    }
  }

  /**
   * With a reference point, the result is a point of the list, every point sorted after it has
   * the reference z, and it is at or above (in the sort order) every point of the list whose z
   * differs from the reference z.
   */
  lemma HighestIsLargestOther(pts: seq<Point3>, z0: real)
    requires |pts| > 1
    ensures var s := SortLex(pts); var j := StopIndex(s, z0, |pts| - 1);
      && s[j] in pts && (forall k | j < k < |s| :: s[k].z == z0)
      && forall p | p in pts && p.z != z0 :: LexLe(p, s[j])
  {
    var s := SortLex(pts);
    var j := StopIndex(s, z0, |pts| - 1);
    assert s[j] in multiset(pts);
    SortLexSorted(pts);
    forall p | p in pts && p.z != z0
      ensures LexLe(p, s[j])
    {
      assert p in multiset(s);
      var i :| 0 <= i < |s| && s[i] == p;
      if i != j {
        assert i < j;
      }
    }
  }

  // --------------------------------------------------------------- get3DArea

  /** The successor index around the ring: the last point is followed by the first. */
  function Next(n: nat, i: nat): nat
    requires i < n
  {
    if i == n - 1 then 0 else i + 1
  }

  /** The sum of cross(p_i, p_next(i)) over the first i edges of the ring. */
  function TotalCross(pts: seq<Point3>, i: nat): Vector3
    requires i <= |pts|
  {
    if i == 0 then Zero
    else Add(TotalCross(pts, i - 1), Cross(pts[i - 1], pts[Next(|pts|, i - 1)]))
  }

  /** What get3DArea returns with the last-index test read as integer equality. */
  function Area(pts: seq<Point3>, sqrt: real -> real): Result<real>
    requires IsSqrt(sqrt)
  {
    if |pts| < 3 then Err(IndexError)
    else
      var u :- UnitNormal(pts[0], pts[1], pts[2], sqrt);
      Ok(Abs(Dot(TotalCross(pts, |pts|), u) * 0.5))
  }

  /**
   * get3DArea with the last-index test as integer equality: the sum of the edge cross products,
   * projected on the unit normal of the first three points, halved and made non-negative.
   */
  method Get3DArea(polypoints: seq<Point3>, sqrt: real -> real) returns (r: Result<real>)
    requires IsSqrt(sqrt)
    ensures r == Area(polypoints, sqrt)
  {
    var n := |polypoints|;
    var total := Zero;
    var i := 0;
    while i < n
      invariant 0 <= i <= n
      invariant total == TotalCross(polypoints, i)
    {
      var vi1 := polypoints[i];
      var vi2 := if i == n - 1 then polypoints[0] else polypoints[i + 1];
      var prod := Cross(vi1, vi2);
      total := Point3(total.x + prod.x, total.y + prod.y, total.z + prod.z);
      i := i + 1;
    }
    if n < 3 {
      return Err(IndexError);
    }
    var normal := UnitNormal(polypoints[0], polypoints[1], polypoints[2], sqrt);
    if normal.Err? {
      return Err(normal.error);
    }
    var result := Dot(total, normal.value);
    return Ok(Abs(result * 0.5));
  }

  /** The three edge cross products of a triangle sum to its normal. */
  lemma ShoelaceTriangle(a: Point3, b: Point3, c: Point3)
    ensures Add(Add(Add(Zero, Cross(a, b)), Cross(b, c)), Cross(c, a)) == NormalOf(a, b, c)
  {
    ShoelaceX(a, b, c);
    ShoelaceY(a, b, c);
    ShoelaceZ(a, b, c);
  }

  /** The x coordinate of ShoelaceTriangle. */
  lemma ShoelaceX(a: Point3, b: Point3, c: Point3)
    ensures Add(Add(Add(Zero, Cross(a, b)), Cross(b, c)), Cross(c, a)).x == Cross(Sub(b, a), Sub(c, a)).x
  {
  }

  /** The y coordinate of ShoelaceTriangle. */
  lemma ShoelaceY(a: Point3, b: Point3, c: Point3)
    ensures Add(Add(Add(Zero, Cross(a, b)), Cross(b, c)), Cross(c, a)).y == Cross(Sub(b, a), Sub(c, a)).y
  {
  }

  /** The z coordinate of ShoelaceTriangle. */
  lemma ShoelaceZ(a: Point3, b: Point3, c: Point3)
    ensures Add(Add(Add(Zero, Cross(a, b)), Cross(b, c)), Cross(c, a)).z == Cross(Sub(b, a), Sub(c, a)).z
  {
  }

  /** The edge cross products of a triangle sum to its normal. */
  lemma TriangleTotalCross(a: Point3, b: Point3, c: Point3)
    ensures TotalCross([a, b, c], 3) == NormalOf(a, b, c)
  {
    var s := [a, b, c];
    assert TotalCross(s, 1) == Add(Zero, Cross(a, b));
    assert TotalCross(s, 2) == Add(TotalCross(s, 1), Cross(b, c));
    assert TotalCross(s, 3) == Add(TotalCross(s, 2), Cross(c, a));
    ShoelaceTriangle(a, b, c);
  }

  /** Closing the triangle with its first point adds a zero edge term. */
  lemma ClosedTriangleTotalCross(a: Point3, b: Point3, c: Point3)
    ensures TotalCross([a, b, c, a], 4) == NormalOf(a, b, c)
  {
    var s := [a, b, c, a];
    assert TotalCross(s, 1) == Add(Zero, Cross(a, b));
    assert TotalCross(s, 2) == Add(TotalCross(s, 1), Cross(b, c));
    assert TotalCross(s, 3) == Add(TotalCross(s, 2), Cross(c, a));
    assert TotalCross(s, 4) == Add(TotalCross(s, 3), Cross(a, a));
    assert Cross(a, a) == Zero;
    ShoelaceTriangle(a, b, c);
  }

  /** The length of a non-zero vector n is its projection on its own unit vector. */
  lemma ProjectionOnOwnUnit(n: Vector3, sqrt: real -> real)
    requires IsSqrt(sqrt) && n != Zero
    ensures Dot(n, Normalize(n, sqrt).value) == sqrt(Norm2(n))
  {
    NormalizeFactor(n, sqrt);
    var m := sqrt(Norm2(n));
    MagnitudeZero(n, sqrt);
    ScaleSecondFactor(n, n, 1.0 / m);
    assert (1.0 / m) * (m * m) == m;
  }

  /** The area of a triangle, open or closed, is half the length of its normal. */
  lemma TriangleArea(a: Point3, b: Point3, c: Point3, sqrt: real -> real)
    requires IsSqrt(sqrt) && !Collinear(a, b, c)
    ensures Area([a, b, c], sqrt) == Ok(sqrt(Norm2(NormalOf(a, b, c))) / 2.0)
    ensures Area([a, b, c, a], sqrt) == Ok(sqrt(Norm2(NormalOf(a, b, c))) / 2.0)
  {
    TriangleTotalCross(a, b, c);
    ClosedTriangleTotalCross(a, b, c);
    ProjectionOnOwnUnit(NormalOf(a, b, c), sqrt);
    MagnitudeZero(NormalOf(a, b, c), sqrt);
  }

  // ------------------------------------------------ get3DArea as the source writes it

  /**
   * `i is len(polypoints) - 1` compares object identity. CPython shares one object per integer
   * only for the small integers -5 to 256; larger equal integers computed separately are
   * distinct objects, so the test holds only for equal values in that range.
   */
  predicate SameIntObject(i: int, j: int) {
    i == j && -5 <= i <= 256
  }

  /** The sum of the source loop: IndexError once the identity test misses the last index. */
  function TotalCrossAsWritten(pts: seq<Point3>, i: nat): Result<Vector3>
    requires i <= |pts|
  {
    if i == 0 then Ok(Zero)
    else
      var prev :- TotalCrossAsWritten(pts, i - 1);
      var k := i - 1;
      if SameIntObject(k, |pts| - 1) then Ok(Add(prev, Cross(pts[k], pts[0])))
      else if k + 1 < |pts| then Ok(Add(prev, Cross(pts[k], pts[k + 1])))
      else Err(IndexError)
  }

  /** What get3DArea returns as written, with `is` in place of `==`. */
  function AreaAsWritten(pts: seq<Point3>, sqrt: real -> real): Result<real>
    requires IsSqrt(sqrt)
  {
    var total :- TotalCrossAsWritten(pts, |pts|);
    if |pts| < 3 then Err(IndexError)
    else
      var u :- UnitNormal(pts[0], pts[1], pts[2], sqrt);
      Ok(Abs(Dot(total, u) * 0.5))
  }

  /** Up to the last index the source loop follows the ring like the corrected one. */
  lemma {:induction false} AsWrittenPrefix(pts: seq<Point3>, i: nat)
    requires i < |pts|
    ensures TotalCrossAsWritten(pts, i) == Ok(TotalCross(pts, i))
  {
    if i > 0 {
      AsWrittenPrefix(pts, i - 1);
    }
  }

  /** For rings of up to 257 points the source computes the corrected area. */
  lemma AsWrittenAgreesOnSmallRings(pts: seq<Point3>, sqrt: real -> real)
    requires IsSqrt(sqrt) && |pts| <= 257
    ensures AreaAsWritten(pts, sqrt) == Area(pts, sqrt)
  {
    if |pts| > 0 {
      AsWrittenTotal(pts);
    }
  }

  /** For rings of up to 257 points the identity test finds the last index, so the whole sum is the corrected one. */
  lemma AsWrittenTotal(pts: seq<Point3>)
    requires 0 < |pts| <= 257
    ensures TotalCrossAsWritten(pts, |pts|) == Ok(TotalCross(pts, |pts|))
  {
    AsWrittenPrefix(pts, |pts| - 1);
    assert SameIntObject(|pts| - 1, |pts| - 1);
  }

  /** For rings of 258 points or more the source raises IndexError instead of returning an area. */
  lemma AsWrittenFailsOnLargeRings(pts: seq<Point3>, sqrt: real -> real)
    requires IsSqrt(sqrt) && |pts| >= 258
    ensures AreaAsWritten(pts, sqrt) == Err(IndexError)
  {
    AsWrittenPrefix(pts, |pts| - 1);
  }
}
