# CityGML2OBJs geometry core in Dafny

CityGML2OBJs converts the building polygons of a CityGML file into Wavefront OBJ meshes. This project models its geometric core and proves properties of the model.

The polygon engine of `polygon3dmodule.py` covers:
- vector helpers;
- plane fitting and the reconstruction of a dropped coordinate;
- ring validity;
- orientation helpers;
- small point utilities;
- `triangulation`. It builds the vertex, segment and hole-marker lists, projects the polygon to 2D, hands it to a triangle library, lifts the triangles back onto the polygon's plane and fixes their winding.

The indexer of `CityGML2OBJs.py` covers:
- `get_index`, which deduplicates vertices and gives each one a 1-based index, shifted by the size of the global table;
- `poly_to_obj`, which gates a polygon on validation and appends its face records;
- the merge of the per-building vertex table into the global one.

Modules, one per file:
- `Outcomes` (`outcomes.dfy`): `Result` and `Option`. Every exception the source can raise is an `Error` value:
  - `IndexError`;
  - `ZeroDivisionError`;
  - `ZeroNormal`, the `SyntaxWarning` that `unit_normal` raises;
  - `AssertionFailed`;
  - a failure of the triangle library.
- `RealArith` (`realarith.dfy`): `Abs` and the lemmas on signs of products that the geometry proofs rely on.
- `Vectors` (`vectors.dfy`): points, `det`, `dot`, `cross`, `unit_normal`, `plane`, `get_height`, `get_y`.
- `Validity` (`validity.dfy`): `isPolyPlanar`, `isPolyValid`.
- `Orientation` (`orientation.dfy`): `compare_normals`, `reverse_vertices`, and the winding fix of `triangulation`.
- `PointUtils` (`points.dfy`): `centroid`, `GMLstring2points`, `smallestPoint`, `highestPoint`, `get3DArea`.
- `Triangulation` (`triangulation.dfy`): `triangulation`, with the triangle library as a parameter.
- `ObjExport` (`converter.dfy`): `get_index`, `poly_to_obj` and the tables they update.

`ObjExport.Converter` is a class. Its fields are the module-level dictionaries that the source mutates:
- `vertices`;
- `local_vertices`;
- `face_output`.

A ghost field `issued` holds, per class, one (index, point) pair for each index written into a face record, in face order. The class invariant ties it to the faces and to the tables:
- the indices of the pairs of a class are the indices of its face records, read in order (`IndicesMatch`);
- each index resolves to its point in the global table followed by the local one (`AllResolve`).

Each accepted polygon appends the pairs `EmitPairs` computes from its triangles, and `EmitPairsMatch` shows these are its face indices, each paired with the triangle corner that produced it. After the merge at the end of a building, every index resolves in the global table alone. So every index of every face record resolves, in its class's final `vertices` list, to the point of its issued pair (`FacesResolve`).

A building is also described without the class, by values:
- `Decisions` lists, polygon by polygon, what `poly_to_obj` decides (`Accepted`): an error, a skip, or the triangles to emit.
- `PolygonStep` applies one decision to the building's tables: the local vertex lists, the face output and the issued pairs.
- `BuildingRun` folds `PolygonStep` over the polygons in order and stops at the first error.
- `ClassCorners` lists, for one class, the corners of the accepted triangles of its polygons, in order.

`ConvertBuilding` is proved against this fold. It raises exactly when some decision is an error, and it raises with the first one. Its tables are then the fold of the polygons before that one. On success its tables are the fold of all the polygons. The points issued for each class then grow by that class's `ClassCorners`.

How the arithmetic is modelled:
- Coordinates are exact `real`s.
- The square root is a parameter `sqrt` that satisfies `IsSqrt`: it maps every non-negative real to its non-negative square root.
- The tolerance tests are also proved in a square-root-free form, with both sides squared.
- The triangle library is a parameter `triangulate` that returns a `Mesh`: 2D vertices and triangles as index triples, or an error.

## Model

| member | source | states |
|---|---|---|
| Vectors.Det | polygon3dmodule.py:172-174 | definition: the six-term 3×3 determinant of det, row by row; DetIsTripleProduct and DetReversedRows state what it is |
| Vectors.DetIsTripleProduct | polygon3dmodule.py:172-174 | the six-term determinant equals the triple product r0 · (r1 × r2) |
| Vectors.DetReversedRows | polygon3dmodule.py:172-174 | reversing the order of the rows negates the determinant |
| Vectors.Dot | polygon3dmodule.py:192-194 | definition: the componentwise products of dot, summed; DotSymmetric states its symmetry |
| Vectors.DotSymmetric | polygon3dmodule.py:192-194 | dot(a, b) == dot(b, a) |
| Vectors.Cross | polygon3dmodule.py:196-201 | definition: the three components of cross; CrossOrthogonal and CrossAntiCommutative state what it is |
| Vectors.CrossOrthogonal | polygon3dmodule.py:196-201 | the cross product is orthogonal to both factors |
| Vectors.CrossAntiCommutative | polygon3dmodule.py:196-201 | cross(b, a) is the negation of cross(a, b) |
| Vectors.NormalOf | polygon3dmodule.py:176-186 | the three determinants of unit_normal form the cross product (b − a) × (c − a) |
| Vectors.NormalOfReversed | polygon3dmodule.py:176-186 | listing the three points in reverse order negates the unnormalised normal |
| Vectors.Normalize | polygon3dmodule.py:187-190 | dividing by the magnitude raises ZeroNormal exactly for the zero vector; otherwise the result is the unit vector pointing the same way |
| Vectors.UnitNormal | polygon3dmodule.py:176-190 | raises ZeroNormal exactly when the three points are collinear (all determinants zero); otherwise the result is the unit vector along the normal of a, b, c |
| Vectors.PlaneThrough | polygon3dmodule.py:305-311 | the coefficients (a, b, c) of plane are unit_normal's three determinants, and all three input points satisfy the equation |
| Vectors.GetHeight | polygon3dmodule.py:313-317 | raises ZeroDivisionError exactly when the plane's c is 0; otherwise (x, y, result) lies on the plane |
| Vectors.GetY | polygon3dmodule.py:319-323 | raises ZeroDivisionError exactly when the plane's b is 0; otherwise (x, result, z) lies on the plane |
| Vectors.GetHeightRoundTrip | polygon3dmodule.py:313-317 | for a point of the plane with c ≠ 0, get_height returns its own z |
| Vectors.GetYRoundTrip | polygon3dmodule.py:319-323 | for a point of the plane with b ≠ 0, get_y returns its own y |
| Vectors.ProjectionSquared | polygon3dmodule.py:104-107 | the distance test against the unit normal holds exactly when (w·n)² ≤ ε²·\|n\|² for the unnormalised normal n |
| Validity.Planar | polygon3dmodule.py:95-109 | raises IndexError below three points and ZeroNormal for three collinear leading points; otherwise true exactly when every point from index 3 on passes the 0.01 test (squared form) |
| Validity.NearPlaneAllSquared | polygon3dmodule.py:95-109 | the 0.01 test against the unit normal holds for all points from index 3 on exactly when the squared test does |
| Validity.IsPolyPlanar | polygon3dmodule.py:95-109 | the loop returns, or raises, what Planar describes |
| Validity.IsPolyValid | polygon3dmodule.py:66-92 | raises exactly what the planarity test raises; otherwise true exactly when the ring is closed, has at least four points counting the closing one, and is planar |
| Validity.IsPolyValidIff | polygon3dmodule.py:66-109 | a ring is valid exactly when it has four points or more, is closed, has non-collinear leading points and passes the squared planarity test |
| Validity.ExactlyPlanarIsValid | polygon3dmodule.py:66-109 | a closed ring of four or more points lying exactly on one plane, with non-collinear leading points, is valid |
| Orientation.CompareNormals | polygon3dmodule.py:325-339 | true exactly when no component differs by more than 0.0001 |
| Orientation.CompareNormalsReflexive | polygon3dmodule.py:325-339 | every normal agrees with itself |
| Orientation.CompareNormalsSymmetric | polygon3dmodule.py:325-339 | agreement is symmetric |
| Orientation.CompareNormalsOpposite | polygon3dmodule.py:325-339 | a unit normal never agrees with its opposite |
| Orientation.Reversed | polygon3dmodule.py:341-347 | same length, and element k is input element n − 1 − k |
| Orientation.ReverseVertices | polygon3dmodule.py:341-347 | the loop appending from the last index down to 0 returns the reversed list |
| Orientation.ReversedInvolution | polygon3dmodule.py:341-347 | reversing twice gives the input back |
| Orientation.ReversedTriangleNormal | polygon3dmodule.py:341-347 | the reversed triangle's unnormalised normal is the negation of the original's |
| Orientation.FixWinding | polygon3dmodule.py:468-473 | raises ZeroNormal exactly for a degenerate triangle; otherwise returns the triangle itself exactly when its unit normal agrees with the polygon's normal, and its reversal otherwise |
| Orientation.FixWindingAgrees | polygon3dmodule.py:468-473 | for a non-degenerate triangle on a plane, the fixed triangle's unit normal is exactly the plane's unit normal |
| PointUtils.CentroidOf | polygon3dmodule.py:293-303 | definition: ZeroDivisionError for an empty list, otherwise the coordinate sums divided by the count; CentroidTimesCount and CentroidOnPlane state what it is |
| PointUtils.Centroid | polygon3dmodule.py:293-303 | the running-sum loop returns the coordinate sums divided by the count, and raises ZeroDivisionError for an empty list |
| PointUtils.CentroidTimesCount | polygon3dmodule.py:293-303 | the centroid times the count is the sum of the points |
| PointUtils.CentroidOnPlane | polygon3dmodule.py:293-303 | the centroid of points of a plane lies on that plane |
| PointUtils.GroupTriples | polygon3dmodule.py:255-260 | one point per three coordinates; point k is (c[3k], c[3k+1], c[3k+2]) |
| PointUtils.GroupFlatten | polygon3dmodule.py:255-260 | grouping the coordinates of a list of points gives the list back |
| PointUtils.FlattenGroup | polygon3dmodule.py:255-260 | flattening the grouped coordinates gives the coordinates back |
| PointUtils.GmlStringToPoints | polygon3dmodule.py:252-261 | a number of coordinates that is not a multiple of 3 fails the assertion; otherwise the result is the grouped triples |
| PointUtils.InsertLex | polygon3dmodule.py:268 | insertion into a sorted list adds exactly the element (multiset) |
| PointUtils.SortLex | polygon3dmodule.py:268 | sorting by (x, y, z) is a permutation of the input |
| PointUtils.InsertLexSorted | polygon3dmodule.py:268 | insertion keeps a list sorted by (x, y, z) |
| PointUtils.SortLexSorted | polygon3dmodule.py:268 | the sorted list is sorted by (x, y, z) |
| PointUtils.SortedBounds | polygon3dmodule.py:264-291 | the first and last sorted points are input points, no larger and no smaller, respectively, than any input point |
| PointUtils.SmallestPoint | polygon3dmodule.py:264-271 | raises IndexError for an empty list; otherwise returns an input point that is lexicographically no larger than any input point |
| PointUtils.StopIndex | polygon3dmodule.py:281-288 | the backward scan stops at the last index whose z differs from the reference's, or at index 1; every index after it has the reference's z |
| PointUtils.HighestPoint | polygon3dmodule.py:273-291 | without a reference, returns the largest point (IndexError when empty); with one, returns [] for at most one point and otherwise the sorted point where the backward scan stops |
| PointUtils.HighestIsLargestOther | polygon3dmodule.py:273-291 | the point chosen with a reference is an input point; every sorted point after it has the reference's z; it is lexicographically no smaller than any input point whose z differs from the reference's |
| PointUtils.TotalCross | polygon3dmodule.py:207-217 | definition: the running sum of the cross products of each point with the next one, the last wrapping round to the first (the `==` reading); TriangleTotalCross ties it to the normal |
| PointUtils.Area | polygon3dmodule.py:203-219 | definition: IndexError below three points, the unit_normal error, otherwise half the absolute value of the total's dot product with the unit normal; TriangleArea states what it is |
| PointUtils.Get3DArea | polygon3dmodule.py:203-219 | the loop sums the edge cross products around the ring and returns half the absolute projection on the unit normal; raises IndexError below three points and ZeroNormal for collinear leading points |
| PointUtils.TriangleTotalCross | polygon3dmodule.py:206-216 | the edge cross products of a triangle sum to its normal |
| PointUtils.ClosedTriangleTotalCross | polygon3dmodule.py:206-216 | with the closing point repeated, they still sum to its normal |
| PointUtils.TriangleArea | polygon3dmodule.py:203-219 | the area of a triangle, open or closed, is half the length of its normal |
| PointUtils.SameIntObject | polygon3dmodule.py:209 | definition: CPython's `is` on two int values, true only for equal values from -5 to 256 (the shared small-integer objects) |
| PointUtils.TotalCrossAsWritten | polygon3dmodule.py:207-217 | definition: the loop with the identity test; at the last index it wraps only when SameIntObject holds, and otherwise `polypoints[i+1]` raises IndexError; AsWrittenPrefix, AsWrittenAgreesOnSmallRings and AsWrittenFailsOnLargeRings state what it does |
| PointUtils.AreaAsWritten | polygon3dmodule.py:203-219 | definition: get3DArea with the as-written loop, its error first; the AsWritten lemmas compare it with Area |
| PointUtils.AsWrittenPrefix | polygon3dmodule.py:207-216 | before the last index, the loop with `is` sums what the loop with `==` sums |
| PointUtils.AsWrittenAgreesOnSmallRings | polygon3dmodule.py:203-219 | for rings of up to 257 points, get3DArea as written returns the area |
| PointUtils.AsWrittenFailsOnLargeRings | polygon3dmodule.py:203-219 | for rings of 258 points or more, get3DArea as written raises IndexError |
| Triangulation.DropLast | polygon3dmodule.py:360 | every point but the last, in order |
| Triangulation.ExteriorLists | polygon3dmodule.py:360-371 | the exterior loop yields the exterior without its closing point and one ring of segments numbered from 0 |
| Triangulation.HoleLists | polygon3dmodule.py:372-380 | a hole loop yields the hole without its closing point and one ring of segments numbered from the running index |
| Triangulation.BuiltLists | polygon3dmodule.py:360-381 | definition: the vertex, segment and hole-marker lists, or the centroid error of a hole; BuildLists returns it, and RingShape, SegmentsShape, HoleBlock and MarkersOnPlane state its shape |
| Triangulation.BuildLists | polygon3dmodule.py:360-381 | the loops yield the vertex, segment and marker lists, or ZeroDivisionError for a hole of at most one point |
| Triangulation.RingShape | polygon3dmodule.py:367-378 | one segment per vertex of the ring; segment k starts at index k and ends inside the ring; no two segments end at the same vertex |
| Triangulation.SegmentsShape | polygon3dmodule.py:360-381 | exactly one segment per vertex; segment k starts at k and ends below the vertex count; no two segments end at the same vertex |
| Triangulation.ListsPrefix | polygon3dmodule.py:372-380 | the lists for a prefix of the holes are prefixes of the full lists |
| Triangulation.ExteriorBlock | polygon3dmodule.py:360-371 | the first block holds the exterior's points, linked in order and closed back to index 0 |
| Triangulation.VerticesUnfold | polygon3dmodule.py:372-380 | one more hole appends its points without the closing one |
| Triangulation.SegmentsUnfold | polygon3dmodule.py:372-380 | one more hole appends one ring of segments numbered from the current vertex count |
| Triangulation.HoleVertexAt | polygon3dmodule.py:372-380 | inside hole h's block, vertex i is the hole's point i − first |
| Triangulation.HoleSegmentAt | polygon3dmodule.py:372-380 | inside hole h's block, segment i links i to i + 1, or back to the block's first index at its end |
| Triangulation.HoleBlockAt | polygon3dmodule.py:372-380 | inside hole h's block, vertex i is the hole's point and segment i links to i + 1, or back to the block's first index at its end |
| Triangulation.HoleBlock | polygon3dmodule.py:372-380 | the same, for every index of hole h's block |
| Triangulation.MarkersOnPlane | polygon3dmodule.py:381 | one marker per hole, and each lies on any plane holding its hole |
| Triangulation.SameX | polygon3dmodule.py:402-406 | definition: every vertex has the first vertex's x; IsParallelToYZ computes it and SameXLiftsOntoPlane uses it |
| Triangulation.IsParallelToYZ | polygon3dmodule.py:402-406 | the flag is set exactly when every vertex has the first vertex's x |
| Triangulation.ChooseProjection | polygon3dmodule.py:396-422 | x is dropped exactly in the YZ case; y is dropped exactly when not YZ and \|normal.z\| < 1e-5; z is dropped otherwise |
| Triangulation.ProjectPoint | polygon3dmodule.py:408-433 | definition: the 2D point the overwrite and pop leave for each projection, (y, z), (x, z) or (x, y); LiftProject states that lifting undoes it on the plane |
| Triangulation.ProjectAll | polygon3dmodule.py:408-433 | one 2D point per input point, each the chosen projection of its point |
| Triangulation.ProjectPoints | polygon3dmodule.py:408-433 | the in-place overwrites and pops yield each point's projection |
| Triangulation.LiftPoint | polygon3dmodule.py:455-466 | raises ZeroDivisionError exactly in the vertical case with b = 0 and the general case with c = 0; otherwise projects back to its input, lies on the plane (or has the first vertex's x in the YZ case) |
| Triangulation.LiftProject | polygon3dmodule.py:453-466 | lifting the projection of a point of the plane (or of a point with the first vertex's x) gives the point back |
| Triangulation.LiftAllErrorPersists | polygon3dmodule.py:451-473 | the first triangle that raises stops the lifting with its error |
| Triangulation.LiftVertex | polygon3dmodule.py:453-466 | definition: vertex v of the library's output lifted by LiftPoint, or IndexError past the end of its vertex list |
| Triangulation.LiftTriangle | polygon3dmodule.py:452-473 | definition: the three vertices lifted in order and then the winding fix; LiftOneTriangle computes it and LiftedTriangleOnPlane states where it lies |
| Triangulation.LiftAll | polygon3dmodule.py:451-473 | definition: every library triangle lifted in order, stopping at the first error; LiftAllEach, LiftAllErrorPersists and LiftTriangles state what it is |
| Triangulation.LiftAllEach | polygon3dmodule.py:451-473 | one output triangle per library triangle, each the lifted and winding-fixed triangle |
| Triangulation.LiftOneTriangle | polygon3dmodule.py:452-473 | the loop over a triangle's vertices and the winding fix return what LiftTriangle describes |
| Triangulation.LiftTriangles | polygon3dmodule.py:450-474 | the loop over the library's triangles returns what LiftAll describes |
| Triangulation.TriangulationOf | polygon3dmodule.py:349-474 | definition: the lists, the unit normal of the first three vertices, the projection choice, the library call and the lifting, with the source's errors in its order; Triangulation computes it and TriangulationFollowsPolygon states where its triangles lie |
| Triangulation.Triangulation | polygon3dmodule.py:349-474 | returns what TriangulationOf describes: lists, normal, projection, plane, library call, lifting |
| Triangulation.SameXLiftsOntoPlane | polygon3dmodule.py:408-414 | when the first three points share x, putting x back always lands on their plane |
| Triangulation.LiftedTriangleOnPlane | polygon3dmodule.py:451-473 | every lifted triangle has three points on the plane and exactly the plane's unit normal |
| Triangulation.TriangulationFollowsPolygon | polygon3dmodule.py:349-474 | for an exterior of four points or more, every triangle produced has three points on the plane of e[0], e[1], e[2] and its unit normal is exactly the polygon's |
| Triangulation.NotVerticalHasHeight | polygon3dmodule.py:396-399 | when \|normal.z\| ≥ 1e-5, the plane's c is non-zero, so get_height cannot divide by zero |
| ObjExport.IndexOf | CityGML2OBJs.py:83-84 | list.index: the first position holding the point |
| ObjExport.GetIndex | CityGML2OBJs.py:78-87 | the list is kept or grown by exactly one point; the index lies in [shift + 1, shift + \|list\|], resolves to the point, and is its first position |
| ObjExport.GetIndexFound | CityGML2OBJs.py:83-84 | for a point already present: first position + 1 + shift, list unchanged |
| ObjExport.GetIndexAppends | CityGML2OBJs.py:85-87 | for a point absent: the list gets exactly that point at its end, index old length + 1 + shift |
| ObjExport.GetIndexKeepsDistinct | CityGML2OBJs.py:83-87 | get_index keeps a duplicate-free list duplicate-free |
| ObjExport.GetIndexIdempotent | CityGML2OBJs.py:83-87 | a second call with the same point returns the same index and changes nothing |
| ObjExport.FaceIndices | CityGML2OBJs.py:124-126 | one index per point of the triangle; the local list only grows; every index resolves to its point |
| ObjExport.FaceIndicesStep | CityGML2OBJs.py:124-126 | one more point appends its get_index result |
| ObjExport.EmitAll | CityGML2OBJs.py:121-132 | the local list only grows, and there are two records per triangle with a material, one without |
| ObjExport.EmitAllStep | CityGML2OBJs.py:121-132 | one more triangle appends its usemtl record (if there is a material) and its face |
| ObjExport.ResolvesExtends | CityGML2OBJs.py:124-126 | an index that resolves still resolves once the local list grows |
| ObjExport.EmitAllKeepsEarlier | CityGML2OBJs.py:121-132 | later triangles leave the records of earlier ones unchanged and resolving |
| ObjExport.EmitAllLast | CityGML2OBJs.py:121-132 | the last triangle's records are its usemtl (if any) and its face, whose indices resolve to its points |
| ObjExport.HasMaterial | CityGML2OBJs.py:129-130 | definition: the truthiness of `if material:`, a given value that is not 0.0; EmitAllRecords states that the usemtl record appears exactly then |
| ObjExport.EmitAllRecords | CityGML2OBJs.py:121-132 | triangle k yields usemtl immediately before its face exactly when a material is given; the face holds len(tri) indices in vertex order, each resolving to its point |
| ObjExport.EmitAllKeepsDistinct | CityGML2OBJs.py:121-132 | emitting faces keeps the local list duplicate-free |
| ObjExport.FaceIndicesKeepDistinct | CityGML2OBJs.py:124-126 | indexing one face keeps the local list duplicate-free |
| ObjExport.RingsValid | CityGML2OBJs.py:113-116 | definition: the interior rings checked in order, the first error raised stopping the check; RingsValidMeaning and RingsErrorPersists state what it is, CheckInteriors computes it |
| ObjExport.RingsValidMeaning | CityGML2OBJs.py:113-116 | raises exactly when some interior ring's check raises; otherwise true exactly when every interior ring is valid |
| ObjExport.RingsErrorPersists | CityGML2OBJs.py:115-118 | the first interior ring that raises stops the check with its error |
| ObjExport.Accepted | CityGML2OBJs.py:110-135 | with validation on, the polygon is skipped exactly when the exterior is invalid, or valid with an invalid interior; an accepted polygon is triangulated, and when validating both checks passed |
| ObjExport.ValidatedFacesFollowPolygon | CityGML2OBJs.py:110-121 | with validation on, every face of an accepted polygon lies on the exterior's plane and carries its unit normal |
| ObjExport.CheckInteriors | CityGML2OBJs.py:113-116 | the loop over the interior rings returns exactly the check of all of them: the first error raised, or whether every ring is valid |
| ObjExport.IndexCorners | CityGML2OBJs.py:124-126 | the loop over a triangle's points returns the indices and the local list that FaceIndices describes |
| ObjExport.EmitLoop | CityGML2OBJs.py:121-132 | the loop over the triangles returns the records and the local list that EmitAll describes |
| ObjExport.FaceIndexListAppend | CityGML2OBJs.py:121-132 | the face indices of two runs of records, read in order, are those of the first run followed by those of the second |
| ObjExport.FacePairsMatch | CityGML2OBJs.py:124-126 | the pairs of one face are its get_index results, in order, each with the triangle point it was computed for |
| ObjExport.EmittedIndices | CityGML2OBJs.py:127-132 | appending a usemtl record and a face adds exactly the face's indices to the face index list |
| ObjExport.EmitPairsMatch | CityGML2OBJs.py:121-132 | the pairs of the emitted faces are exactly the face indices of the EmitAll records in order, and their points are the triangles' corners in order |
| ObjExport.FacePairsResolve | CityGML2OBJs.py:124-126 | each pair of a face resolves in the local list left after the face |
| ObjExport.EmitPairsResolve | CityGML2OBJs.py:121-132 | every pair of the emitted faces resolves in the local list left after the last face |
| ObjExport.FaceIndexListAt | CityGML2OBJs.py:121-132 | index m of face record k sits in the face index list right after the indices of the records before it |
| ObjExport.FaceIndexIssued | CityGML2OBJs.py:121-132 | when the pairs match the records, index m of face record k is the index of the pair at its position |
| ObjExport.AllFacesResolve | CityGML2OBJs.py:121-132 | when the pairs match the records and all resolve in a table, every index of every face resolves there to the point of its pair |
| ObjExport.IndicesMatchAppend | CityGML2OBJs.py:121-132 | appending faces to one class together with matching pairs keeps every class's pairs matching its faces |
| ObjExport.EmitKeepsTables | CityGML2OBJs.py:121-132 | emitting the faces of some triangles into one class, their pairs recorded, keeps the tables' invariant |
| ObjExport.LocalGrows | CityGML2OBJs.py:126 | growing one local table keeps every issued index resolving |
| ObjExport.IssueMany | CityGML2OBJs.py:126 | indices shifted by len(vertices[cl]) and resolving in the local table resolve in global + local |
| ObjExport.MergedResolve | CityGML2OBJs.py:431-433 | once each local table is appended to its global one, every issued index resolves in the global tables alone |
| ObjExport.SettledFacesResolve | CityGML2OBJs.py:431-433 | once every issued index resolves in the global tables alone, every index of every face resolves in its class's global table to the point of its issued pair |
| ObjExport.AppendOne | CityGML2OBJs.py:432-433 | appending the next local vertex extends the merged prefix by one |
| ObjExport.Converter.constructor | CityGML2OBJs.py:254-285 | all tables start empty for every class, and the invariant holds |
| ObjExport.Converter.StartBuilding | CityGML2OBJs.py:312-316 | every local table is reset to empty; nothing else changes |
| ObjExport.Converter.PolyToObj | CityGML2OBJs.py:95-146 | its result follows Accepted; an accepted polygon appends the EmitAll records to face_output[cl], replaces local_vertices[cl] by EmitAll's list and records the EmitPairs pairs as issued; a skipped or raising polygon leaves face_output, local_vertices and the issued pairs unchanged; vertices is not modified; the invariant is kept |
| ObjExport.Converter.EmitFaces | CityGML2OBJs.py:121-132 | the face output and local table of cl are updated with EmitAll and the issued pairs of cl extended with EmitPairs, with shift len(vertices[cl]); the invariant is kept |
| ObjExport.Converter.MergeClass | CityGML2OBJs.py:432-433 | the global table of class cl becomes its old contents followed by the local table of cl, and nothing else changes |
| ObjExport.Converter.MergeLocal | CityGML2OBJs.py:431-433 | vertices[cl] becomes old vertices[cl] followed by local_vertices[cl] for every class, and every issued index then resolves in the global table |
| ObjExport.Decisions | CityGML2OBJs.py:347-428 | one decision per polygon of a building, in order; DecisionAt states that decision k is Accepted of polygon k |
| ObjExport.DecisionAt | CityGML2OBJs.py:110-135 | the decision recorded for polygon k of a building is what poly_to_obj decides for that polygon (Accepted) |
| ObjExport.PolygonStep | CityGML2OBJs.py:95-146 | one call of poly_to_obj on a building's tables as values: an error stops, a skip leaves them, an acceptance appends EmitAll's records and points and EmitPairs' pairs to its class with shift len(vertices[cl]); the result keeps the tables' classes; StepOfOutcome ties it to PolyToObj |
| ObjExport.StepOfOutcome | CityGML2OBJs.py:95-146 | the outcome and table updates that PolyToObj promises are exactly one PolygonStep: an error gives that error, a skip leaves the tables, an acceptance appends its EmitAll records, local points and EmitPairs pairs to its class with shift len(vertices[cl]) |
| ObjExport.BuildingRun | CityGML2OBJs.py:347-428 | PolygonStep over a building's polygons in order, stopping at the first error; the result keeps the tables' classes; BuildingRunStep states its unfolding |
| ObjExport.RunReaches | CityGML2OBJs.py:347-428 | definition: BuildingRun's preconditions hold and it ends without error in the given tables; ConvertPolygons and ConvertBuilding are stated with it |
| ObjExport.BuildingRunStep | CityGML2OBJs.py:347-428 | converting one more polygon is one PolygonStep after the run of the polygons before it, and an error raised before it is the run's error |
| ObjExport.ClassCorners | CityGML2OBJs.py:121-132 | definition: for one class, the corners of the accepted triangles of its polygons, polygon after polygon; BuildingRunCorners states that these are the points issued for that class |
| ObjExport.BuildingRunCorners | CityGML2OBJs.py:121-132 | over a run of polygons, the points issued for class c are the old ones followed by the corners of the accepted triangles of the class-c polygons, polygon after polygon |
| ObjExport.Converter.ConvertPolygon | CityGML2OBJs.py:95-146 | the call of poly_to_obj for polygon i of a building is one PolygonStep with its decision: it raises exactly when the decision is an error, with that error and the tables unchanged, and otherwise the tables become PolygonStep's result; vertices is not modified |
| ObjExport.Converter.ConvertNext | CityGML2OBJs.py:347-428 | after polygons 0..i-1 were converted from the building's start without error, the call for polygon i either raises with decision i's error and changes nothing, or extends that run to polygons 0..i |
| ObjExport.Converter.ConvertPolygons | CityGML2OBJs.py:347-428 | the calls of poly_to_obj for a building's polygons in order stop at the first error: the first k polygons are converted without error and the tables are BuildingRun of them; on an error it is decision k's; otherwise k is the number of polygons |
| ObjExport.Converter.ConvertBuilding | CityGML2OBJs.py:312-433 | reset, polygons in order and merge: it raises exactly when some polygon's decision is an error, with the first such error, and the tables are then BuildingRun of the polygons before it from empty local tables, with vertices unchanged; otherwise the tables are BuildingRun of all the polygons, vertices[c] becomes old vertices[c] followed by local_vertices[c], the points issued for class c grow by the corners of the accepted triangles of its polygons in order, and every index of every face record resolves in vertices[c] to the point of its issued pair; the invariant is kept and face_output and the issued pairs only grow |

## Left out

- The triangle library call (`triangle.triangulate` with flags "pQjz", polygon3dmodule.py:443-445) is foreign C code. It is the parameter `triangulate`, and its result is only assumed to be index triples into 2D vertices.
- IEEE-754 floating point, and unit normals that are unit only up to rounding. The model uses exact reals and a square-root parameter.
- XML traversal (`markup3dmodule.py`, `getAreaOfGML`) and the building, opening, semantic-class and attribute iteration of CityGML2OBJs.py:288-428. `ObjExport.Converter.ConvertBuilding` takes the polygons of one building already extracted.
- Command-line parsing, directory handling, progress and diagnostic prints, OBJ text output and file writing (`write_vertices`). A face record holds its index list, not its "f …" text.
- `mtl` (CityGML2OBJs.py:223-233): it uses numpy and float rounding. A `UseMtl` record carries the attribute value that `mtl` would map to a colour class.
- `getAngles`, `get2DArea`, `getNormal`, `isPolySimple` and `intersection`. `isPolySimple` is disabled in `isPolyValid`.
- `plotcolorbar.py` and `generateMTL.py`: plotting and MTL file writing.
- The float and string conversions of `GMLstring2points`. PointUtils.GmlStringToPoints takes the already-split coordinates.
- The unused slope points `a` and `b` of triangulation (polygon3dmodule.py:358-366). They do not affect its result.
- Python object aliasing: `get_index` appends to the list it is given in place and returns it. The model returns the new list, which the caller stores back, as the source does.
- ObjExport.Converter.PolyToObj: requires the class to be a key of the tables. The source would raise KeyError otherwise, and every class it uses is created beforehand (CityGML2OBJs.py:254-285).
- ObjExport.Converter.PolyToObj: writes `face_output[cl]` and `local_vertices[cl]` once, after all the triangles, rather than after each one. Nothing in that loop can raise, so the final tables are the same.
- Errors are not caught: `poly_to_obj` has no handler, so every error raised by the validation or `triangulation` aborts the conversion. The model returns the error, and ConvertBuilding states the tables that the polygons before the failing one left.
- The `o <id>` object records of the `-g 1` option (CityGML2OBJs.py:336 and :389). `Record` has only usemtl and face records, so a class's face output here lacks those lines. They carry no vertex indices.
- The `copy.deepcopy` calls of `triangulation` (polygon3dmodule.py:388-391), and the in-place `pop(-1)` that drops the third coordinate of each copied point and hole marker after the overwrite (lines 425-426 and 432-433). The copies matter only if point lists were shared. The model works on immutable values: a copy is the value itself, and the projection to 2D (`ProjectPoint`) is the overwrite followed by the pop.

## Findings

| source | as written | input that shows it | evidently intended | confidence | as-written member | corrected member |
|---|---|---|---|---|---|---|
| polygon3dmodule.py:207-211 | `if i is len(polypoints)-1` tests object identity; CPython shares integer objects only from -5 to 256, so for a ring of 258 points or more the last index is not recognised, and `polypoints[i+1]` raises IndexError | any ring of 258 points | `==`: the last point is followed by the first and the area is returned | not executed; medium (depends on CPython's small-integer cache) | PointUtils.AsWrittenFailsOnLargeRings | PointUtils.Get3DArea |
