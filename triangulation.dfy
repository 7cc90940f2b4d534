/**
 * The deterministic parts of triangulation in polygon3dmodule.py: building the vertex, segment
 * and hole-marker lists of the planar straight-line graph, choosing a projection, dropping a
 * coordinate, lifting the triangles back onto the plane, and fixing their winding. The
 * triangulator itself is a parameter.
 */
module Triangulation {
  import opened Outcomes
  import opened RealArith
  import opened Vectors
  import opened Orientation
  import opened PointUtils

  /** A point of the projection plane: the two coordinates that remain after one is dropped. */
  datatype Point2 = Point2(u: real, v: real)

  /** A boundary segment between two vertex indices. */
  datatype Segment = Segment(start: nat, end: nat)

  /** The input of the triangulator: vertices, segments and hole markers (None when there are no holes). */
  datatype Pslg = Pslg(vertices: seq<Point2>, segments: seq<Segment>, holes: Option<seq<Point2>>)

  /** One triangle of the output, as three indices into the output vertices. */
  datatype Triangle = Triangle(i0: nat, i1: nat, i2: nat)

  /** The output of the triangulator: its vertices and its triangles. */
  datatype Mesh = Mesh(vertices: seq<Point2>, triangles: seq<Triangle>)

  /** The three lists triangulation builds before projecting. */
  datatype Lists = Lists(vertices: seq<Point3>, segments: seq<Segment>, markers: seq<Point3>)

  // ------------------------------------------------------------ list building

  /** A ring without its closing point: ring[:-1]. */
  function DropLast<T>(s: seq<T>): (r: seq<T>)
    ensures |r| == if |s| == 0 then 0 else |s| - 1
    ensures forall k | 0 <= k < |r| :: r[k] == s[k]
  {
    if |s| == 0 then [] else s[..|s| - 1]
  }

  /** The segments of one ring of count vertices numbered from first: each to the next, the last back to first. */
  function RingSegments(first: nat, count: nat): seq<Segment> {
    seq(count, k requires 0 <= k < count => Segment(first + k, if k == count - 1 then first else first + k + 1))
  }

  /** The vertex list: the exterior without its closing point, then each hole without its own. */
  function AllVertices(e: seq<Point3>, holes: seq<seq<Point3>>): seq<Point3> {
    if |holes| == 0 then DropLast(e)
    else AllVertices(e, DropLast(holes)) + DropLast(holes[|holes| - 1])
  }

  /** The segment list: one ring of segments per ring, numbered as the vertices are. */
  function AllSegments(e: seq<Point3>, holes: seq<seq<Point3>>): seq<Segment> {
    if |holes| == 0 then RingSegments(0, |DropLast(e)|)
    else
      var init := DropLast(holes);
      AllSegments(e, init) + RingSegments(|AllVertices(e, init)|, |DropLast(holes[|holes| - 1])|)
  }

  /** The hole markers: the centroid of each hole without its closing point; a hole of one point or none divides by zero. */
  function AllMarkers(holes: seq<seq<Point3>>): Result<seq<Point3>> {
    if exists k | 0 <= k < |holes| :: |holes[k]| <= 1 then Err(ZeroDivisionError)
    else Ok(Markers(holes))
  }

  /** The centroids of holes that have at least two points each. */
  function Markers(holes: seq<seq<Point3>>): seq<Point3>
    requires forall k | 0 <= k < |holes| :: |holes[k]| > 1
  {
    seq(|holes|, k requires 0 <= k < |holes| => CentroidOf(DropLast(holes[k])).value)
  }

  /** The markers of the first h + 1 holes extend those of the first h by the centroid of hole h. */
  lemma MarkersStep(holes: seq<seq<Point3>>, h: nat)
    requires h < |holes| && forall k | 0 <= k <= h :: |holes[k]| > 1
    ensures Markers(holes[..h + 1]) == Markers(holes[..h]) + [CentroidOf(DropLast(holes[h])).value]
  {
  }

  /** What the list-building loops produce or raise. */
  function BuiltLists(e: seq<Point3>, holes: seq<seq<Point3>>): Result<Lists> {
    var markers :- AllMarkers(holes);
    Ok(Lists(AllVertices(e, holes), AllSegments(e, holes), markers))
  }

  /** The first loop of triangulation: the exterior's vertices and segments. */
  method ExteriorLists(e: seq<Point3>) returns (vertices: seq<Point3>, segments: seq<Segment>)
    ensures vertices == DropLast(e) && segments == RingSegments(0, |DropLast(e)|)
  {
    vertices, segments := [], [];
    var count := |DropLast(e)|;
    var indexPoint := 0;
    var ip := 0;
    while ip < |e| - 1
      invariant 0 <= ip <= count && indexPoint == ip
      invariant vertices == DropLast(e)[..ip]
      invariant segments == RingSegments(0, count)[..ip]
    {
      vertices := vertices + [e[ip]];
      if ip == |e| - 2 {
        segments := segments + [Segment(indexPoint, 0)];
      } else {
        segments := segments + [Segment(indexPoint, indexPoint + 1)];
      }
      indexPoint := indexPoint + 1;
      ip := ip + 1;
    }
    assert DropLast(e)[..ip] == DropLast(e);
    assert RingSegments(0, count)[..ip] == RingSegments(0, count);
  }

  /** The inner loop over one hole: its vertices and segments, numbered from first. */
  method HoleLists(hole: seq<Point3>, first: nat) returns (vertices: seq<Point3>, segments: seq<Segment>)
    ensures vertices == DropLast(hole) && segments == RingSegments(first, |DropLast(hole)|)
  {
    vertices, segments := [], [];
    var count := |DropLast(hole)|;
    var indexPoint := first;
    var p := 0;
    while p < |hole| - 1
      invariant 0 <= p <= count && indexPoint == first + p
      invariant vertices == DropLast(hole)[..p]
      invariant segments == RingSegments(first, count)[..p]
    {
      if p == |hole| - 2 {
        segments := segments + [Segment(indexPoint, first)];
      } else {
        segments := segments + [Segment(indexPoint, indexPoint + 1)];
      }
      indexPoint := indexPoint + 1;
      vertices := vertices + [hole[p]];
      p := p + 1;
    }
    assert DropLast(hole)[..p] == DropLast(hole);
    assert RingSegments(first, count)[..p] == RingSegments(first, count);
  }

  /** The two list-building loops of triangulation, with the centroid of each hole as its marker. */
  method BuildLists(e: seq<Point3>, holes: seq<seq<Point3>>) returns (r: Result<Lists>)
    ensures r == BuiltLists(e, holes)
  {
    var vertices, segments := ExteriorLists(e);
    var markers: seq<Point3> := [];
    var h := 0;
    assert holes[..0] == [];
    while h < |holes|
      invariant 0 <= h <= |holes|
      invariant vertices == AllVertices(e, holes[..h])
      invariant segments == AllSegments(e, holes[..h])
      invariant forall k | 0 <= k < h :: |holes[k]| > 1
      invariant markers == Markers(holes[..h])
    {
      VerticesUnfold(e, holes, h);
      SegmentsUnfold(e, holes, h);
      var holeVertices, holeSegments := HoleLists(holes[h], |vertices|);
      vertices, segments := vertices + holeVertices, segments + holeSegments;
      var c := Centroid(DropLast(holes[h]));
      if c.Err? {
        return Err(c.error);
      }
      MarkersStep(holes, h);
      markers := markers + [c.value];
      h := h + 1;
    }
    assert holes[..h] == holes;
    return Ok(Lists(vertices, segments, markers));
  }

  // ------------------------------------------------------- shape of the lists

  /** One ring's segments: segment k leaves vertex first + k, and no two enter the same vertex of the ring. */
  lemma RingShape(first: nat, count: nat)
    ensures var r := RingSegments(first, count);
      && |r| == count
      && (forall k | 0 <= k < count :: r[k].start == first + k && first <= r[k].end < first + count)
      && (forall i, j | 0 <= i < count && 0 <= j < count && r[i].end == r[j].end :: i == j)
  {
  }

  /** Segment k of a ring leaves vertex first + k for the next one, or for first at the end. */
  lemma RingSegmentAt(first: nat, count: nat, k: nat)
    requires k < count
    ensures RingSegments(first, count)[k] == Segment(first + k, if first + k == first + count - 1 then first else first + k + 1)
  {
  }

  /**
   * The segment list has one segment per vertex; segment k leaves vertex k and enters a vertex of
   * the list, and no two segments enter the same vertex: every vertex has exactly one outgoing and
   * one incoming segment, so the segments form closed cycles.
   */
  lemma {:induction false} SegmentsShape(e: seq<Point3>, holes: seq<seq<Point3>>)
    ensures var vs, ss := AllVertices(e, holes), AllSegments(e, holes);
      && |ss| == |vs|
      && (forall k | 0 <= k < |ss| :: ss[k].start == k && ss[k].end < |vs|)
      && (forall i, j | 0 <= i < |ss| && 0 <= j < |ss| && ss[i].end == ss[j].end :: i == j)
  {
    if |holes| == 0 {
      RingShape(0, |DropLast(e)|);
    } else {
      var init := DropLast(holes);
      SegmentsShape(e, init);
      var m := |AllVertices(e, init)|;
      var c := |DropLast(holes[|holes| - 1])|;
      RingShape(m, c);
      var ss := AllSegments(e, holes);
      var r := RingSegments(m, c);
      assert forall k | m <= k < |ss| :: ss[k] == r[k - m];
    }
  }

  /** There are as many segments as vertices. */
  lemma {:induction false} SegmentsCount(e: seq<Point3>, holes: seq<seq<Point3>>)
    ensures |AllSegments(e, holes)| == |AllVertices(e, holes)|
  {
    if |holes| > 0 {
      SegmentsCount(e, DropLast(holes));
    }
  }

  /** The lists built for the first h holes are prefixes of the lists built for all of them. */
  lemma {:induction false} ListsPrefix(e: seq<Point3>, holes: seq<seq<Point3>>, h: nat)
    requires h <= |holes|
    ensures AllVertices(e, holes[..h]) <= AllVertices(e, holes)
    ensures AllSegments(e, holes[..h]) <= AllSegments(e, holes)
  {
    if h < |holes| {
      var init := DropLast(holes);
      assert init[..h] == holes[..h];
      ListsPrefix(e, init, h);
    } else {
      assert holes[..h] == holes;
    }
  }

  /** Vertex i of the list for the first h holes is vertex i of the full list. */
  lemma VertexPrefixAt(e: seq<Point3>, holes: seq<seq<Point3>>, h: nat, i: nat)
    requires h <= |holes| && i < |AllVertices(e, holes[..h])|
    ensures i < |AllVertices(e, holes)| && AllVertices(e, holes)[i] == AllVertices(e, holes[..h])[i]
  {
    ListsPrefix(e, holes, h);
  }

  /** Segment i of the list for the first h holes is segment i of the full list. */
  lemma SegmentPrefixAt(e: seq<Point3>, holes: seq<seq<Point3>>, h: nat, i: nat)
    requires h <= |holes| && i < |AllSegments(e, holes[..h])|
    ensures i < |AllSegments(e, holes)| && AllSegments(e, holes)[i] == AllSegments(e, holes[..h])[i]
  {
    ListsPrefix(e, holes, h);
  }

  /** The exterior comes first: its points without the closing one, and a cycle from its last vertex back to 0. */
  lemma ExteriorBlock(e: seq<Point3>, holes: seq<seq<Point3>>)
    ensures var vs, ss, n := AllVertices(e, holes), AllSegments(e, holes), |DropLast(e)|;
      && n <= |vs| && n <= |ss|
      && (forall k | 0 <= k < n :: vs[k] == e[k])
      && (forall k | 0 <= k < n :: ss[k] == Segment(k, if k == n - 1 then 0 else k + 1))
  {
    ListsPrefix(e, holes, 0);
    assert holes[..0] == [];
  }

  /** The vertex list for the first h + 1 holes extends the one for the first h holes by hole h. */
  lemma VerticesUnfold(e: seq<Point3>, holes: seq<seq<Point3>>, h: nat)
    requires h < |holes|
    ensures AllVertices(e, holes[..h + 1]) == AllVertices(e, holes[..h]) + DropLast(holes[h])
  {
    var upto := holes[..h + 1];
    assert DropLast(upto) == holes[..h];
    assert upto[|upto| - 1] == holes[h];
  }

  /** The segment list for the first h + 1 holes extends the one for the first h holes by hole h's ring. */
  lemma SegmentsUnfold(e: seq<Point3>, holes: seq<seq<Point3>>, h: nat)
    requires h < |holes|
    ensures AllSegments(e, holes[..h + 1])
         == AllSegments(e, holes[..h]) + RingSegments(|AllVertices(e, holes[..h])|, |DropLast(holes[h])|)
  {
    var upto := holes[..h + 1];
    assert DropLast(upto) == holes[..h];
    assert upto[|upto| - 1] == holes[h];
  }

  /** One vertex of hole h's block, as HoleBlock states it for all of them. */
  lemma HoleVertexAt(e: seq<Point3>, holes: seq<seq<Point3>>, h: nat, i: nat)
    requires h < |holes|
    requires |AllVertices(e, holes[..h])| <= i < |AllVertices(e, holes[..h])| + |DropLast(holes[h])|
    ensures i < |AllVertices(e, holes)| && AllVertices(e, holes)[i] == holes[h][i - |AllVertices(e, holes[..h])|]
  {
    var first := |AllVertices(e, holes[..h])|;
    VerticesUnfold(e, holes, h);
    assert AllVertices(e, holes[..h + 1])[i] == DropLast(holes[h])[i - first];
    VertexPrefixAt(e, holes, h + 1, i);
  }

  /** One segment of hole h's block, as HoleBlock states it for all of them. */
  lemma HoleSegmentAt(e: seq<Point3>, holes: seq<seq<Point3>>, h: nat, i: nat)
    requires h < |holes|
    requires |AllVertices(e, holes[..h])| <= i < |AllVertices(e, holes[..h])| + |DropLast(holes[h])|
    ensures var first, n := |AllVertices(e, holes[..h])|, |DropLast(holes[h])|;
      i < |AllSegments(e, holes)| && AllSegments(e, holes)[i] == Segment(i, if i == first + n - 1 then first else i + 1)
  {
    var first, n := |AllVertices(e, holes[..h])|, |DropLast(holes[h])|;
    SegmentsUnfold(e, holes, h);
    SegmentsCount(e, holes[..h]);
    ListsPrefix(e, holes, h + 1);
    SegmentInRing(AllSegments(e, holes), AllSegments(e, holes[..h + 1]), AllSegments(e, holes[..h]), first, n, i);
  }

  /** A segment of a ring that follows the first segments of a list, inside any longer list. */
  lemma SegmentInRing(full: seq<Segment>, upto: seq<Segment>, pre: seq<Segment>, first: nat, n: nat, i: nat)
    requires upto == pre + RingSegments(first, n) && upto <= full
    requires |pre| == first <= i < first + n
    ensures i < |full| && full[i] == Segment(i, if i == first + n - 1 then first else i + 1)
  {
    assert full[i] == upto[i] == RingSegments(first, n)[i - first];
    RingSegmentAt(first, n, i - first);
  }

  /** One index of hole h's block, as HoleBlock states it for all of them. */
  lemma HoleBlockAt(e: seq<Point3>, holes: seq<seq<Point3>>, h: nat, i: nat)
    requires h < |holes|
    requires |AllVertices(e, holes[..h])| <= i < |AllVertices(e, holes[..h])| + |DropLast(holes[h])|
    ensures var first, n := |AllVertices(e, holes[..h])|, |DropLast(holes[h])|;
      && i < |AllVertices(e, holes)| && i < |AllSegments(e, holes)|
      && AllVertices(e, holes)[i] == holes[h][i - first]
      && AllSegments(e, holes)[i] == Segment(i, if i == first + n - 1 then first else i + 1)
  {
    HoleVertexAt(e, holes, h, i);
    HoleSegmentAt(e, holes, h, i);
  }

  /**
   * Hole h comes after the exterior and the earlier holes, at the index first it starts from:
   * its points without the closing one, then a cycle from its last vertex back to first.
   */
  lemma HoleBlock(e: seq<Point3>, holes: seq<seq<Point3>>, h: nat)
    requires h < |holes|
    ensures var vs, ss := AllVertices(e, holes), AllSegments(e, holes);
      var first, n := |AllVertices(e, holes[..h])|, |DropLast(holes[h])|;
      && (forall i | first <= i < first + n :: i < |vs| && vs[i] == holes[h][i - first])
      && (forall i | first <= i < first + n ::
            i < |ss| && ss[i] == Segment(i, if i == first + n - 1 then first else i + 1))
  {
    var first, n := |AllVertices(e, holes[..h])|, |DropLast(holes[h])|;
    forall i | first <= i < first + n {
      HoleBlockAt(e, holes, h, i);
    }
  }

  /** Every hole marker is the centroid of its hole, so it lies on any plane the hole lies on. */
  lemma MarkersOnPlane(holes: seq<seq<Point3>>, pl: Plane)
    requires forall h, k | 0 <= h < |holes| && 0 <= k < |holes[h]| :: OnPlane(pl, holes[h][k])
    requires AllMarkers(holes).Ok?
    ensures |AllMarkers(holes).value| == |holes|
    ensures forall h | 0 <= h < |holes| :: OnPlane(pl, AllMarkers(holes).value[h])
  {
    forall h | 0 <= h < |holes|
      ensures OnPlane(pl, CentroidOf(DropLast(holes[h])).value)
    {
      CentroidOnPlane(pl, DropLast(holes[h]));
    }
  }

  // -------------------------------------------------------------- projection

  /** The coordinate the projection drops: x for a ring parallel to the YZ plane, y for a vertical one, z otherwise. */
  datatype Projection = DropX | DropY | DropZ

  /** A ring is vertical when the z-component of its unit normal is below 10e-6. */
  const VerticalTolerance: real := 0.00001

  /** Every vertex has the x-coordinate of the first one. */
  predicate SameX(pts: seq<Point3>) {
    forall i | 1 <= i < |pts| :: pts[i].x == pts[0].x
  }

  /** The YZ loop of triangulation: clears the flag at every vertex whose x differs from the first. */
  method IsParallelToYZ(pts: seq<Point3>) returns (yz: bool)
    ensures yz == SameX(pts)
  {
    yz := true;
    var i := 1;
    while i < |pts|
      invariant 1 <= i <= |pts| || (|pts| == 0 && i == 1)
      invariant yz <==> forall k | 1 <= k < i && k < |pts| :: pts[k].x == pts[0].x
    {
      if pts[i].x != pts[0].x {
        yz := false;
      }
      i := i + 1;
    }
  }

  /** The YZ special case first, then the vertical test on the unit normal, then the general case. */
  function ChooseProjection(yz: bool, normal: Vector3): (proj: Projection)
    ensures proj == DropX <==> yz
    ensures proj == DropY <==> !yz && Abs(normal.z) < VerticalTolerance
  {
    if yz then DropX else if Abs(normal.z) < VerticalTolerance then DropY else DropZ
  }

  /** The two coordinates a point keeps under a projection. */
  function ProjectPoint(proj: Projection, p: Point3): Point2 {
    match proj
    case DropX => Point2(p.y, p.z)
    case DropY => Point2(p.x, p.z)
    case DropZ => Point2(p.x, p.y)
  }

  /** Every point of a list, projected. */
  function ProjectAll(proj: Projection, pts: seq<Point3>): (r: seq<Point2>)
    ensures |r| == |pts| && forall i | 0 <= i < |pts| :: r[i] == ProjectPoint(proj, pts[i])
  {
    seq(|pts|, i requires 0 <= i < |pts| => ProjectPoint(proj, pts[i]))
  }

  /**
   * The projection as triangulation performs it on its deep copy: overwrite the first two
   * coordinates of every point in place (nothing for the general case), then pop the last one.
   */
  method ProjectPoints(points: seq<Point3>, proj: Projection) returns (flat: seq<Point2>)
    ensures flat == ProjectAll(proj, points)
  {
    var newPoints := points;
    var i := 0;
    if proj == DropX {
      while i < |points|
        invariant 0 <= i <= |points| && |newPoints| == |points|
        invariant forall k | 0 <= k < i :: newPoints[k].x == points[k].y && newPoints[k].y == points[k].z
      {
        newPoints := newPoints[i := newPoints[i].(x := points[i].y)];
        newPoints := newPoints[i := newPoints[i].(y := points[i].z)];
        i := i + 1;
      }
    } else if proj == DropY {
      while i < |points|
        invariant 0 <= i <= |points| && |newPoints| == |points|
        invariant forall k | 0 <= k < |points| :: newPoints[k].x == points[k].x
        invariant forall k | 0 <= k < i :: newPoints[k].y == points[k].z
      {
        newPoints := newPoints[i := newPoints[i].(y := points[i].z)];
        i := i + 1;
      }
    }
    flat := [];
    i := 0;
    while i < |newPoints|
      invariant 0 <= i <= |newPoints| && |flat| == i
      invariant forall k | 0 <= k < i :: flat[k] == Point2(newPoints[k].x, newPoints[k].y)
    {
      flat := flat + [Point2(newPoints[i].x, newPoints[i].y)];
      i := i + 1;
    }
  }

  // ----------------------------------------------------------------- lifting

  /**
   * A point of the projection plane lifted back to 3D: the YZ case puts back the x of the first
   * vertex, the vertical case solves the plane for y with get_y, the general case for z with
   * get_height. The lifted point projects back onto the 2D point and, outside the YZ case, lies
   * on the plane; solving fails exactly when the coefficient divided by is zero.
   */
  function LiftPoint(proj: Projection, x0: real, pl: Plane, q: Point2): (r: Result<Point3>)
    ensures r.Err? <==> (proj == DropY && pl.b == 0.0) || (proj == DropZ && pl.c == 0.0)
    ensures r.Err? ==> r.error == ZeroDivisionError
    ensures r.Ok? ==> ProjectPoint(proj, r.value) == q
    ensures r.Ok? && proj != DropX ==> OnPlane(pl, r.value)
    ensures r.Ok? && proj == DropX ==> r.value.x == x0
  {
    match proj
    case DropX => Ok(Point3(x0, q.u, q.v))
    case DropY =>
      var y :- GetY(pl, q.u, q.v);
      Ok(Point3(q.u, y, q.v))
    case DropZ =>
      var z :- GetHeight(pl, q.u, q.v);
      Ok(Point3(q.u, q.v, z))
  }

  /**
   * Projecting and lifting gives back a point of the plane: in the YZ case when it has the first
   * vertex's x, otherwise when the coefficient solved for is non-zero.
   */
  lemma LiftProject(proj: Projection, x0: real, pl: Plane, p: Point3)
    requires proj == DropX ==> p.x == x0
    requires proj == DropY ==> pl.b != 0.0 && OnPlane(pl, p)
    requires proj == DropZ ==> pl.c != 0.0 && OnPlane(pl, p)
    ensures LiftPoint(proj, x0, pl, ProjectPoint(proj, p)) == Ok(p)
  {
    match proj
    case DropX =>
    case DropY => GetYRoundTrip(pl, p);
    case DropZ => GetHeightRoundTrip(pl, p);
  }

  /** A vertex of the triangulator's output, looked up and lifted; an index past the end raises IndexError. */
  function LiftVertex(vert: seq<Point2>, v: nat, proj: Projection, x0: real, pl: Plane): Result<Point3> {
    if v < |vert| then LiftPoint(proj, x0, pl, vert[v]) else Err(IndexError)
  }

  /** One output triangle: its three vertices lifted in order, then the winding fix. */
  function LiftTriangle(tri: Triangle, vert: seq<Point2>, proj: Projection, x0: real, pl: Plane,
                        normal: Vector3, sqrt: real -> real): Result<seq<Point3>>
    requires IsSqrt(sqrt)
  {
    var a :- LiftVertex(vert, tri.i0, proj, x0, pl);
    var b :- LiftVertex(vert, tri.i1, proj, x0, pl);
    var c :- LiftVertex(vert, tri.i2, proj, x0, pl);
    FixWinding(normal, [a, b, c], sqrt)
  }

  /** All output triangles in order; the first one that raises decides the error. */
  function LiftAll(tris: seq<Triangle>, vert: seq<Point2>, proj: Projection, x0: real, pl: Plane,
                   normal: Vector3, sqrt: real -> real): Result<seq<seq<Point3>>>
    requires IsSqrt(sqrt)
  {
    if |tris| == 0 then Ok([])
    else
      var done :- LiftAll(DropLast(tris), vert, proj, x0, pl, normal, sqrt);
      var last :- LiftTriangle(tris[|tris| - 1], vert, proj, x0, pl, normal, sqrt);
      Ok(done + [last])
  }

  /** Lifting one more triangle: its error, or the lifts so far followed by its lift. */
  lemma LiftAllStep(tris: seq<Triangle>, t: nat, vert: seq<Point2>, proj: Projection, x0: real, pl: Plane,
                    normal: Vector3, sqrt: real -> real, done: seq<seq<Point3>>)
    requires IsSqrt(sqrt) && t < |tris| && LiftAll(tris[..t], vert, proj, x0, pl, normal, sqrt) == Ok(done)
    ensures var last := LiftTriangle(tris[t], vert, proj, x0, pl, normal, sqrt);
      LiftAll(tris[..t + 1], vert, proj, x0, pl, normal, sqrt)
        == if last.Err? then Err(last.error) else Ok(done + [last.value])
  {
    assert DropLast(tris[..t + 1]) == tris[..t];
  }

  /** Once a prefix of the triangles raises, every longer list raises the same error. */
  lemma {:induction false} LiftAllErrorPersists(tris: seq<Triangle>, n: nat, vert: seq<Point2>, proj: Projection,
                                                x0: real, pl: Plane, normal: Vector3, sqrt: real -> real)
    requires IsSqrt(sqrt) && n <= |tris|
    requires LiftAll(tris[..n], vert, proj, x0, pl, normal, sqrt).Err?
    ensures LiftAll(tris, vert, proj, x0, pl, normal, sqrt) == LiftAll(tris[..n], vert, proj, x0, pl, normal, sqrt)
  {
    if n < |tris| {
      var init := DropLast(tris);
      assert init[..n] == tris[..n];
      LiftAllErrorPersists(init, n, vert, proj, x0, pl, normal, sqrt);
    } else {
      assert tris[..n] == tris;
    }
  }

  /** A successful lift yields one point list per triangle, each the lift of that triangle. */
  lemma {:induction false} LiftAllEach(tris: seq<Triangle>, vert: seq<Point2>, proj: Projection,
                                       x0: real, pl: Plane, normal: Vector3, sqrt: real -> real)
    requires IsSqrt(sqrt) && LiftAll(tris, vert, proj, x0, pl, normal, sqrt).Ok?
    ensures var out := LiftAll(tris, vert, proj, x0, pl, normal, sqrt).value;
      |out| == |tris| &&
      forall k | 0 <= k < |tris| :: LiftTriangle(tris[k], vert, proj, x0, pl, normal, sqrt) == Ok(out[k])
  {
    if |tris| > 0 {
      LiftAllAt(tris, 0, vert, proj, x0, pl, normal, sqrt);
      var out := LiftAll(tris, vert, proj, x0, pl, normal, sqrt).value;
      forall k | 0 <= k < |tris|
        ensures LiftTriangle(tris[k], vert, proj, x0, pl, normal, sqrt) == Ok(out[k])
      {
        LiftAllAt(tris, k, vert, proj, x0, pl, normal, sqrt);
      }
    }
  }

  /** Entry k of a successful lift is the lift of triangle k. */
  lemma {:induction false} LiftAllAt(tris: seq<Triangle>, k: nat, vert: seq<Point2>, proj: Projection,
                                     x0: real, pl: Plane, normal: Vector3, sqrt: real -> real)
    requires IsSqrt(sqrt) && k < |tris| && LiftAll(tris, vert, proj, x0, pl, normal, sqrt).Ok?
    ensures var out := LiftAll(tris, vert, proj, x0, pl, normal, sqrt).value;
      |out| == |tris| && LiftTriangle(tris[k], vert, proj, x0, pl, normal, sqrt) == Ok(out[k])
  {
    var init := DropLast(tris);
    if k < |tris| - 1 {
      LiftAllAt(init, k, vert, proj, x0, pl, normal, sqrt);
      assert init[k] == tris[k];
    } else if k > 0 {
      LiftAllAt(init, 0, vert, proj, x0, pl, normal, sqrt);
    }
  }

  /** The lift of one output triangle: the loop over its three corners, then the winding fix. */
  method LiftOneTriangle(tri: Triangle, vert: seq<Point2>, proj: Projection, x0: real, pl: Plane,
                         normal: Vector3, sqrt: real -> real) returns (r: Result<seq<Point3>>)
    requires IsSqrt(sqrt)
    ensures r == LiftTriangle(tri, vert, proj, x0, pl, normal, sqrt)
  {
    var corners := [tri.i0, tri.i1, tri.i2];
    var tmp: seq<Point3> := [];
    var k := 0;
    while k < 3
      invariant 0 <= k <= 3 && |tmp| == k
      invariant forall m | 0 <= m < k :: LiftVertex(vert, corners[m], proj, x0, pl) == Ok(tmp[m])
    {
      var v := corners[k];
      if v >= |vert| {
        return Err(IndexError);
      }
      var q := vert[v];
      var p: Point3;
      if proj == DropX {
        p := Point3(x0, q.u, q.v);
      } else if proj == DropY {
        var y := GetY(pl, q.u, q.v);
        if y.Err? {
          return Err(y.error);
        }
        p := Point3(q.u, y.value, q.v);
      } else {
        var z := GetHeight(pl, q.u, q.v);
        if z.Err? {
          return Err(z.error);
        }
        p := Point3(q.u, q.v, z.value);
      }
      tmp := tmp + [p];
      k := k + 1;
    }
    assert tmp == [tmp[0], tmp[1], tmp[2]];
    var triNormal := UnitNormal(tmp[0], tmp[1], tmp[2], sqrt);
    if triNormal.Err? {
      return Err(triNormal.error);
    }
    if CompareNormals(normal, triNormal.value) {
      r := Ok(tmp);
    } else {
      var reversed := ReverseVertices(tmp);
      r := Ok(reversed);
    }
  }

  /** The loop over the triangulator's triangles, each lifted and kept or reversed. */
  method LiftTriangles(mesh: Mesh, proj: Projection, x0: real, pl: Plane, normal: Vector3, sqrt: real -> real)
    returns (r: Result<seq<seq<Point3>>>)
    requires IsSqrt(sqrt)
    ensures r == LiftAll(mesh.triangles, mesh.vertices, proj, x0, pl, normal, sqrt)
  {
    var tris, vert := mesh.triangles, mesh.vertices;
    var triPoints: seq<seq<Point3>> := [];
    var t := 0;
    while t < |tris|
      invariant 0 <= t <= |tris|
      invariant LiftAll(tris[..t], vert, proj, x0, pl, normal, sqrt) == Ok(triPoints)
    {
      LiftAllStep(tris, t, vert, proj, x0, pl, normal, sqrt, triPoints);
      var lifted := LiftOneTriangle(tris[t], vert, proj, x0, pl, normal, sqrt);
      if lifted.Err? {
        LiftAllErrorPersists(tris, t + 1, vert, proj, x0, pl, normal, sqrt);
        return Err(lifted.error);
      }
      triPoints := triPoints + [lifted.value];
      t := t + 1;
    }
    assert tris[..t] == tris;
    return Ok(triPoints);
  }

  // ------------------------------------------------ the whole triangulation

  /**
   * What triangulation returns or raises for an exterior ring e and interior rings holes: build
   * the lists, take the unit normal of the first three vertices, choose the projection, hand the
   * projected lists to the triangulator (holes absent when there are none), and lift and orient
   * every triangle it returns on the plane of the first three exterior points.
   */
  function TriangulationOf(e: seq<Point3>, holes: seq<seq<Point3>>, sqrt: real -> real,
                           triangulate: Pslg -> Result<Mesh>): Result<seq<seq<Point3>>>
    requires IsSqrt(sqrt)
  {
    var lists :- BuiltLists(e, holes);
    var vs := lists.vertices;
    if |vs| < 3 then Err(IndexError)
    else
      var normal :- UnitNormal(vs[0], vs[1], vs[2], sqrt);
      var proj := ChooseProjection(SameX(vs), normal);
      var holesOpt := if |lists.markers| == 0 then None else Some(ProjectAll(proj, lists.markers));
      if |e| < 3 then Err(IndexError)
      else
        var pl := PlaneThrough(e[0], e[1], e[2]);
        var mesh :- triangulate(Pslg(ProjectAll(proj, vs), lists.segments, holesOpt));
        LiftAll(mesh.triangles, mesh.vertices, proj, vs[0].x, pl, normal, sqrt)
  }

  /** triangulation, step by step as the source performs it. */
  method Triangulation(e: seq<Point3>, holes: seq<seq<Point3>>, sqrt: real -> real,
                       triangulate: Pslg -> Result<Mesh>) returns (r: Result<seq<seq<Point3>>>)
    requires IsSqrt(sqrt)
    ensures r == TriangulationOf(e, holes, sqrt, triangulate)
  {
    var lists := BuildLists(e, holes);
    if lists.Err? {
      return Err(lists.error);
    }
    var vertices, segments, markers := lists.value.vertices, lists.value.segments, lists.value.markers;
    if |vertices| < 3 {
      return Err(IndexError);
    }
    var normal := UnitNormal(vertices[0], vertices[1], vertices[2], sqrt);
    if normal.Err? {
      return Err(normal.error);
    }
    var yz := IsParallelToYZ(vertices);
    var proj := ChooseProjection(yz, normal.value);
    var newPoly := ProjectPoints(vertices, proj);
    var newHoles: Option<seq<Point2>> := None;
    if |markers| != 0 {
      var projected := ProjectPoints(markers, proj);
      newHoles := Some(projected);
    }
    if |e| < 3 {
      return Err(IndexError);
    }
    var pl := PlaneThrough(e[0], e[1], e[2]);
    var mesh := triangulate(Pslg(newPoly, segments, newHoles));
    if mesh.Err? {
      return Err(mesh.error);
    }
    r := LiftTriangles(mesh.value, proj, vertices[0].x, pl, normal.value, sqrt);
  }

  // ------------------------------------------------------- what it guarantees

  /** Every point a projection lifts successfully lies on the plane pl. */
  ghost predicate LiftsOntoPlane(proj: Projection, x0: real, pl: Plane) {
    forall q: Point2 :: LiftPoint(proj, x0, pl, q).Ok? ==> OnPlane(pl, LiftPoint(proj, x0, pl, q).value)
  }

  /**
   * A plane through three points of equal x is the plane x = x0: its b and c vanish, so putting
   * back x0 lands on it whatever the other two coordinates are.
   */
  lemma SameXLiftsOntoPlane(a: Point3, b: Point3, c: Point3)
    requires b.x == a.x && c.x == a.x
    ensures LiftsOntoPlane(DropX, a.x, PlaneThrough(a, b, c))
  {
    var pl := PlaneThrough(a, b, c);
    assert pl.b == 0.0 && pl.c == 0.0;
    forall q: Point2
      ensures OnPlane(pl, Point3(a.x, q.u, q.v))
    {
      assert OnPlane(pl, a);
    }
  }

  /**
   * A lifted triangle whose corners all land on a plane with a non-zero normal, oriented against
   * that normal, lies on the plane and has the plane's unit normal.
   */
  lemma LiftedTriangleOnPlane(tri: Triangle, vert: seq<Point2>, proj: Projection, x0: real, pl: Plane,
                              sqrt: real -> real)
    requires IsSqrt(sqrt) && Coefficients(pl) != Zero && LiftsOntoPlane(proj, x0, pl)
    requires LiftTriangle(tri, vert, proj, x0, pl, Normalize(Coefficients(pl), sqrt).value, sqrt).Ok?
    ensures var t := LiftTriangle(tri, vert, proj, x0, pl, Normalize(Coefficients(pl), sqrt).value, sqrt).value;
      && |t| == 3
      && OnPlane(pl, t[0]) && OnPlane(pl, t[1]) && OnPlane(pl, t[2])
      && UnitNormal(t[0], t[1], t[2], sqrt) == Normalize(Coefficients(pl), sqrt)
  {
    var n := Normalize(Coefficients(pl), sqrt).value;
    var a := LiftVertex(vert, tri.i0, proj, x0, pl).value;
    var b := LiftVertex(vert, tri.i1, proj, x0, pl).value;
    var c := LiftVertex(vert, tri.i2, proj, x0, pl).value;
    var corners := [a, b, c];
    assert OnPlane(pl, a) && OnPlane(pl, b) && OnPlane(pl, c);
    var t := FixWinding(n, corners, sqrt).value;
    FixWindingAgrees(pl, corners, sqrt);
    if t != corners {
      assert t == Reversed(corners);
      assert t[0] == c && t[1] == b && t[2] == a;
    }
  }

  /**
   * The faces triangulation emits for an exterior of at least three distinct points plus the
   * closing one all lie on the plane of its first three points and carry the polygon's own unit
   * normal: the winding fix never lets a triangle face the other way.
   */
  lemma TriangulationFollowsPolygon(e: seq<Point3>, holes: seq<seq<Point3>>, sqrt: real -> real,
                                    triangulate: Pslg -> Result<Mesh>)
    requires IsSqrt(sqrt) && |e| >= 4
    requires TriangulationOf(e, holes, sqrt, triangulate).Ok?
    ensures var faces, pl := TriangulationOf(e, holes, sqrt, triangulate).value, PlaneThrough(e[0], e[1], e[2]);
      && UnitNormal(e[0], e[1], e[2], sqrt).Ok?
      && forall k | 0 <= k < |faces| ::
           && |faces[k]| == 3
           && OnPlane(pl, faces[k][0]) && OnPlane(pl, faces[k][1]) && OnPlane(pl, faces[k][2])
           && UnitNormal(faces[k][0], faces[k][1], faces[k][2], sqrt) == UnitNormal(e[0], e[1], e[2], sqrt)
  {
    var lists := BuiltLists(e, holes).value;
    var vs := lists.vertices;
    ExteriorBlock(e, holes);
    assert vs[0] == e[0] && vs[1] == e[1] && vs[2] == e[2];
    var normal := UnitNormal(vs[0], vs[1], vs[2], sqrt).value;
    var proj := ChooseProjection(SameX(vs), normal);
    var holesOpt := if |lists.markers| == 0 then None else Some(ProjectAll(proj, lists.markers));
    var pl := PlaneThrough(e[0], e[1], e[2]);
    var mesh := triangulate(Pslg(ProjectAll(proj, vs), lists.segments, holesOpt)).value;
    if proj == DropX {
      assert vs[1].x == vs[0].x && vs[2].x == vs[0].x;
      SameXLiftsOntoPlane(e[0], e[1], e[2]);
    }
    assert LiftsOntoPlane(proj, vs[0].x, pl);
    LiftAllEach(mesh.triangles, mesh.vertices, proj, vs[0].x, pl, normal, sqrt);
    var faces := LiftAll(mesh.triangles, mesh.vertices, proj, vs[0].x, pl, normal, sqrt).value;
    forall k | 0 <= k < |faces|
      ensures |faces[k]| == 3
      ensures OnPlane(pl, faces[k][0]) && OnPlane(pl, faces[k][1]) && OnPlane(pl, faces[k][2])
      ensures UnitNormal(faces[k][0], faces[k][1], faces[k][2], sqrt) == UnitNormal(e[0], e[1], e[2], sqrt)
    {
      LiftedTriangleOnPlane(mesh.triangles[k], mesh.vertices, proj, vs[0].x, pl, sqrt);
    }
  }

  /**
   * Outside the YZ and vertical cases the z-coefficient of the plane through the first three
   * points is non-zero, so get_height never divides by zero there.
   */
  lemma NotVerticalHasHeight(a: Point3, b: Point3, c: Point3, sqrt: real -> real)
    requires IsSqrt(sqrt) && !Collinear(a, b, c)
    requires Abs(UnitNormal(a, b, c, sqrt).value.z) >= VerticalTolerance
    ensures PlaneThrough(a, b, c).c != 0.0
  {
  }
}
