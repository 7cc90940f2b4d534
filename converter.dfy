/**
 * The vertex indexer and face builder of CityGML2OBJs.py. The converter keeps, per semantic
 * class, a global vertex table, a building-local table that new points are appended to, and the
 * face records of the OBJ output. Face indices are 1-based and shifted past the global table, so
 * they stay correct once the local table is merged at the end of a building.
 */
module ObjExport {
  import opened Outcomes
  import opened Vectors
  import opened Validity
  import opened Triangulation

  // ------------------------------------------------------------ get_index

  /** The position of the first occurrence of p in s: what Python's list.index returns. */
  function IndexOf(s: seq<Point3>, p: Point3): (i: nat)
    requires p in s
    ensures i < |s| && s[i] == p && p !in s[..i]
  {
    if s[0] == p then 0
    else
      assert s == [s[0]] + s[1..];
      var j := IndexOf(s[1..], p);
      assert s[..j + 1] == [s[0]] + s[1..][..j];
      j + 1
  }

  /**
   * get_index: the 1-based index of point, shifted by shift, in the list updated to contain it.
   * A point already listed keeps its first position; a new one is appended and found at the end.
   * The index always points back at the point, and at its first occurrence.
   */
  function GetIndex(point: Point3, list: seq<Point3>, shift: nat): (r: (nat, seq<Point3>))
    ensures list <= r.1 && |r.1| == |list| + (if point in list then 0 else 1)
    ensures shift + 1 <= r.0 <= shift + |r.1|
    ensures r.1[r.0 - 1 - shift] == point && point !in r.1[..r.0 - 1 - shift]
  {
    if point in list then (IndexOf(list, point) + 1 + shift, list)
    else
      var extended := list + [point];
      (IndexOf(extended, point) + 1 + shift, extended)
  }

  /** A listed point: the list is unchanged and the index is its first position plus 1 plus shift. */
  lemma GetIndexFound(point: Point3, list: seq<Point3>, shift: nat, k: nat)
    requires k < |list| && list[k] == point && point !in list[..k]
    ensures GetIndex(point, list, shift) == (k + 1 + shift, list)
  {
    var i := IndexOf(list, point);
  }

  /** A new point: it is appended at the end and its index is the old length plus 1 plus shift. */
  lemma GetIndexAppends(point: Point3, list: seq<Point3>, shift: nat)
    requires point !in list
    ensures GetIndex(point, list, shift) == (|list| + 1 + shift, list + [point])
  {
    var extended := list + [point];
    GetIndexFound(point, extended, shift, |list|);
  }

  /** No point occurs twice. */
  predicate NoDuplicates(s: seq<Point3>) {
    forall i, j | 0 <= i < j < |s| :: s[i] != s[j]
  }

  /** get_index keeps a duplicate-free list duplicate-free. */
  lemma GetIndexKeepsDistinct(point: Point3, list: seq<Point3>, shift: nat)
    requires NoDuplicates(list)
    ensures NoDuplicates(GetIndex(point, list, shift).1)
  {
    if point !in list {
      var extended := list + [point];
      forall i, j | 0 <= i < j < |extended|
        ensures extended[i] != extended[j]
      {
        if j == |list| {
          assert extended[i] == list[i];
        }
      }
    }
  }

  /** Indexing the same point again gives the same index and changes nothing. */
  lemma GetIndexIdempotent(point: Point3, list: seq<Point3>, shift: nat)
    ensures var (v, l) := GetIndex(point, list, shift);
      GetIndex(point, l, shift) == (v, l)
  {
    var (v, l) := GetIndex(point, list, shift);
    GetIndexFound(point, l, shift, v - 1 - shift);
  }

  // ------------------------------------------------------ indices of a face

  /** (index, point): an index handed out for a point. */
  type Issue = (nat, Point3)

  /** The index v (1-based, shifted) resolves to p in the table of the shift global points followed by local. */
  predicate IndexResolves(v: nat, local: seq<Point3>, shift: nat, p: Point3) {
    shift + 1 <= v <= shift + |local| && local[v - 1 - shift] == p
  }

  /** The indices of one triangle's points, each through get_index in turn, and the local list after them. */
  function FaceIndices(tri: seq<Point3>, local: seq<Point3>, shift: nat): (r: (seq<nat>, seq<Point3>))
    ensures |r.0| == |tri| && local <= r.1
    ensures forall k | 0 <= k < |tri| :: IndexResolves(r.0[k], r.1, shift, tri[k])
  {
    if |tri| == 0 then ([], local)
    else
      var prev := FaceIndices(DropLast(tri), local, shift);
      var next := GetIndex(tri[|tri| - 1], prev.1, shift);
      (prev.0 + [next.0], next.1)
  }

  /** Indexing one more point of a face appends its index and continues from the list left behind. */
  lemma FaceIndicesStep(tri: seq<Point3>, ep: nat, local: seq<Point3>, shift: nat, f: seq<nat>, current: seq<Point3>)
    requires ep < |tri| && (f, current) == FaceIndices(tri[..ep], local, shift)
    ensures var next := GetIndex(tri[ep], current, shift);
      FaceIndices(tri[..ep + 1], local, shift) == (f + [next.0], next.1)
  {
    assert DropLast(tri[..ep + 1]) == tri[..ep];
  }

  // ------------------------------------------------------------ face records

  /** One record of the face output: a material switch, or a face given by its vertex indices. */
  datatype Record = UseMtl(attribute: real) | Face(indices: seq<nat>)

  /** Python's `if material:` on the attribute value: absent or 0.0 means no material. */
  predicate HasMaterial(material: Option<real>) {
    material.Some? && material.value != 0.0
  }

  /** The material switch emitted before each face: one usemtl record, or none. */
  function MaterialSwitch(material: Option<real>): seq<Record> {
    if HasMaterial(material) then [UseMtl(material.value)] else []
  }

  /** The number of records for n triangles: two each with a material, one each without. */
  function RecordCount(material: Option<real>, n: nat): nat {
    if HasMaterial(material) then 2 * n else n
  }

  /** The position of triangle k's face record: after its material switch when there is one. */
  function FaceSlot(material: Option<real>, k: nat): nat {
    if HasMaterial(material) then 2 * k + 1 else k
  }

  /** All records for a list of triangles, with the local list they leave behind. */
  function EmitAll(tris: seq<seq<Point3>>, local: seq<Point3>, shift: nat, material: Option<real>)
    : (r: (seq<Record>, seq<Point3>))
    ensures local <= r.1
    ensures |r.0| == RecordCount(material, |tris|)
  {
    if |tris| == 0 then ([], local)
    else
      var prev := EmitAll(DropLast(tris), local, shift, material);
      var face := FaceIndices(tris[|tris| - 1], prev.1, shift);
      (prev.0 + MaterialSwitch(material) + [Face(face.0)], face.1)
  }

  /**
   * Emitting one more triangle appends its material switch and face to the records of the
   * earlier ones, and continues from the local list they left behind.
   */
  lemma EmitAllStep(tris: seq<seq<Point3>>, i: nat, local: seq<Point3>, shift: nat, material: Option<real>,
                    records: seq<Record>, before: seq<Point3>, f: seq<nat>, extended: seq<Point3>)
    requires i < |tris|
    requires (records, before) == EmitAll(tris[..i], local, shift, material)
    requires (f, extended) == FaceIndices(tris[i], before, shift)
    ensures EmitAll(tris[..i + 1], local, shift, material) == (records + MaterialSwitch(material) + [Face(f)], extended)
  {
    assert DropLast(tris[..i + 1]) == tris[..i];
  }

  // ------------------------------------------------------ what the faces refer to

  /** The indices one record writes: those of a face, none for a material switch. */
  function RecordIndices(record: Record): seq<nat> {
    if record.Face? then record.indices else []
  }

  /** The indices written by the face records, in order: the numbers of the 'f' lines one after another. */
  function FaceIndexList(records: seq<Record>): seq<nat> {
    if |records| == 0 then [] else FaceIndexList(DropLast(records)) + RecordIndices(records[|records| - 1])
  }

  /** The face indices of two runs of records are those of the first run followed by those of the second. */
  lemma {:induction false} FaceIndexListAppend(a: seq<Record>, b: seq<Record>)
    ensures FaceIndexList(a + b) == FaceIndexList(a) + FaceIndexList(b)
  {
    if |b| == 0 {
      assert a + b == a;
    } else {
      FaceIndexListLast(a, b);
      FaceIndexListAppend(a, DropLast(b));
      ConcatAssoc(FaceIndexList(a), FaceIndexList(DropLast(b)), RecordIndices(b[|b| - 1]));
    }
  }

  /** Concatenation of index lists is associative. */
  lemma ConcatAssoc<T>(x: seq<T>, y: seq<T>, z: seq<T>)
    ensures (x + y) + z == x + (y + z)
  {
  }

  /** The last record of a + b is the last record of b. */
  lemma FaceIndexListLast(a: seq<Record>, b: seq<Record>)
    requires |b| > 0
    ensures FaceIndexList(a + b) == FaceIndexList(a + DropLast(b)) + RecordIndices(b[|b| - 1])
  {
    var c := a + b;
    assert DropLast(c) == a + DropLast(b);
  }

  /** The face indices of a single record. */
  lemma FaceIndexListOne(record: Record)
    ensures FaceIndexList([record]) == RecordIndices(record)
  {
    assert DropLast([record]) == [];
  }

  /** The indices of a list of issued pairs. */
  function IndicesOf(issues: seq<Issue>): seq<nat> {
    seq(|issues|, k requires 0 <= k < |issues| => issues[k].0)
  }

  /** The points of a list of issued pairs. */
  function PointsOf(issues: seq<Issue>): seq<Point3> {
    seq(|issues|, k requires 0 <= k < |issues| => issues[k].1)
  }

  /** Taking indices and points commutes with concatenation. */
  lemma OfAppend(a: seq<Issue>, b: seq<Issue>)
    ensures IndicesOf(a + b) == IndicesOf(a) + IndicesOf(b)
    ensures PointsOf(a + b) == PointsOf(a) + PointsOf(b)
  {
  }

  /** The points of all triangles one after another, in the order the faces are emitted. */
  function Corners(tris: seq<seq<Point3>>): seq<Point3> {
    if |tris| == 0 then [] else Corners(DropLast(tris)) + tris[|tris| - 1]
  }

  /** Each index paired with the point at the same position. */
  function Zip(indices: seq<nat>, points: seq<Point3>): seq<Issue>
    requires |indices| == |points|
  {
    seq(|indices|, k requires 0 <= k < |indices| => (indices[k], points[k]))
  }

  /** The (index, point) pairs of one face: each point of the triangle with the index get_index gave it. */
  function FacePairs(tri: seq<Point3>, local: seq<Point3>, shift: nat): seq<Issue> {
    Zip(FaceIndices(tri, local, shift).0, tri)
  }

  /** The pairs of a face are its indices, in order, each with its point. */
  lemma FacePairsMatch(tri: seq<Point3>, local: seq<Point3>, shift: nat)
    ensures IndicesOf(FacePairs(tri, local, shift)) == FaceIndices(tri, local, shift).0
    ensures PointsOf(FacePairs(tri, local, shift)) == tri
  {
  }

  /** The pairs of all faces emitted for a list of triangles, in the order of their records. */
  function EmitPairs(tris: seq<seq<Point3>>, local: seq<Point3>, shift: nat, material: Option<real>): seq<Issue> {
    if |tris| == 0 then []
    else
      var init := DropLast(tris);
      EmitPairs(init, local, shift, material) + FacePairs(tris[|tris| - 1], EmitAll(init, local, shift, material).1, shift)
  }

  /**
   * The pairs of the emitted faces are exactly the face indices of the records, in order, each
   * with the corner point it was handed out for, in the order of the triangles.
   */
  lemma {:induction false} EmitPairsMatch(tris: seq<seq<Point3>>, local: seq<Point3>, shift: nat, material: Option<real>)
    ensures IndicesOf(EmitPairs(tris, local, shift, material)) == FaceIndexList(EmitAll(tris, local, shift, material).0)
    ensures PointsOf(EmitPairs(tris, local, shift, material)) == Corners(tris)
  {
    if |tris| > 0 {
      var init := DropLast(tris);
      var prev := EmitAll(init, local, shift, material);
      var tri := tris[|tris| - 1];
      var f := FaceIndices(tri, prev.1, shift).0;
      EmitPairsMatch(init, local, shift, material);
      OfAppend(EmitPairs(init, local, shift, material), FacePairs(tri, prev.1, shift));
      FacePairsMatch(tri, prev.1, shift);
      EmittedIndices(prev.0, material, f);
    }
  }

  /** The face indices after one more material switch and face are the earlier ones followed by the face's. */
  lemma EmittedIndices(records: seq<Record>, material: Option<real>, f: seq<nat>)
    ensures FaceIndexList(records + MaterialSwitch(material) + [Face(f)]) == FaceIndexList(records) + f
  {
    var x := FaceIndexList(records);
    FaceIndexListAppend(records, MaterialSwitch(material));
    if HasMaterial(material) {
      FaceIndexListOne(UseMtl(material.value));
    }
    assert x + [] == x;
    FaceIndexListAppend(records + MaterialSwitch(material), [Face(f)]);
    FaceIndexListOne(Face(f));
  }

  /** Each pair of a face resolves in the local list the face leaves behind. */
  lemma FacePairsResolve(tri: seq<Point3>, local: seq<Point3>, shift: nat)
    ensures var pairs, after := FacePairs(tri, local, shift), FaceIndices(tri, local, shift).1;
      forall k | 0 <= k < |pairs| :: IndexResolves(pairs[k].0, after, shift, pairs[k].1)
  {
  }

  /** Every pair of the emitted faces resolves in the local list left behind by the last face. */
  lemma {:induction false} EmitPairsResolve(tris: seq<seq<Point3>>, local: seq<Point3>, shift: nat, material: Option<real>)
    ensures forall k | 0 <= k < |EmitPairs(tris, local, shift, material)| ::
      IndexResolves(EmitPairs(tris, local, shift, material)[k].0, EmitAll(tris, local, shift, material).1,
                    shift, EmitPairs(tris, local, shift, material)[k].1)
  {
    if |tris| > 0 {
      var init := DropLast(tris);
      var before := EmitAll(init, local, shift, material).1;
      var tri := tris[|tris| - 1];
      EmitPairsResolve(init, local, shift, material);
      FacePairsResolve(tri, before, shift);
      IssuesExtend(EmitPairs(init, local, shift, material), FacePairs(tri, before, shift),
                   before, FaceIndices(tri, before, shift).1, shift);
    }
  }

  /** Index m of face record k sits in the face index list after the indices of the records before it. */
  lemma FaceIndexListAt(records: seq<Record>, k: nat, m: nat)
    requires k < |records| && records[k].Face? && m < |records[k].indices|
    ensures |FaceIndexList(records[..k])| + m < |FaceIndexList(records)|
    ensures FaceIndexList(records)[|FaceIndexList(records[..k])| + m] == records[k].indices[m]
  {
    var pre, post := records[..k], records[k + 1..];
    assert records == pre + [records[k]] + post;
    FaceIndexListAppend(pre + [records[k]], post);
    FaceIndexListAppend(pre, [records[k]]);
    FaceIndexListOne(records[k]);
    ConcatIndex(FaceIndexList(pre), records[k].indices, FaceIndexList(post), m);
  }

  /** Element m of the middle part of x + f + y. */
  lemma ConcatIndex(x: seq<nat>, f: seq<nat>, y: seq<nat>, m: nat)
    requires m < |f|
    ensures |x| + m < |x + f + y| && (x + f + y)[|x| + m] == f[m]
  {
  }

  /** Position pos of the issued indices is the index of the issue at pos. */
  lemma IndexAt(issues: seq<Issue>, ids: seq<nat>, pos: nat)
    requires IndicesOf(issues) == ids && pos < |ids|
    ensures pos < |issues| && issues[pos].0 == ids[pos]
  {
    assert IndicesOf(issues)[pos] == issues[pos].0;
  }

  /**
   * Index m of face record k is the index issued at position pos, the number of face indices
   * written before it plus m, whenever the issued indices are the records' face indices in order.
   */
  lemma FaceIndexIssued(issues: seq<Issue>, records: seq<Record>, k: nat, m: nat)
    requires IndicesOf(issues) == FaceIndexList(records)
    requires k < |records| && records[k].Face? && m < |records[k].indices|
    ensures var pos := |FaceIndexList(records[..k])| + m;
      pos < |issues| && issues[pos].0 == records[k].indices[m]
  {
    FaceIndexListAt(records, k, m);
    IndexAt(issues, FaceIndexList(records), |FaceIndexList(records[..k])| + m);
  }

  /**
   * Index m of face record k resolves in table to the point issued at its position: the number
   * of face indices written before that record, plus m.
   */
  ghost predicate IssuedAt(records: seq<Record>, issues: seq<Issue>, table: seq<Point3>, k: nat, m: nat)
    requires k < |records| && records[k].Face? && m < |records[k].indices|
  {
    var pos := |FaceIndexList(records[..k])| + m;
    && pos < |issues| && issues[pos].0 == records[k].indices[m]
    && 1 <= records[k].indices[m] <= |table| && table[records[k].indices[m] - 1] == issues[pos].1
  }

  /** Every index of every face resolves in table to the point issued at its position. */
  ghost predicate FacesResolve(records: seq<Record>, issues: seq<Issue>, table: seq<Point3>) {
    forall k: nat, m: nat | k < |records| && records[k].Face? && m < |records[k].indices| ::
      IssuedAt(records, issues, table, k, m)
  }

  /**
   * Every index of every face resolves in table, and to the point it was issued for, when the
   * issued pairs are the records' face indices in order and every pair resolves in table.
   */
  lemma AllFacesResolve(issues: seq<Issue>, records: seq<Record>, table: seq<Point3>)
    requires IndicesOf(issues) == FaceIndexList(records)
    requires forall i | 0 <= i < |issues| :: Resolves(issues[i], table)
    ensures FacesResolve(records, issues, table)
  {
    forall k: nat, m: nat | k < |records| && records[k].Face? && m < |records[k].indices|
      ensures IssuedAt(records, issues, table, k, m)
    {
      FaceIndexIssued(issues, records, k, m);
      assert Resolves(issues[|FaceIndexList(records[..k])| + m], table);
    }
  }

  /** Indices that resolve in a list, followed by indices that resolve in an extension of it, all resolve in the extension. */
  lemma IssuesExtend(issues: seq<(nat, Point3)>, more: seq<(nat, Point3)>, local: seq<Point3>,
                     extended: seq<Point3>, shift: nat)
    requires local <= extended
    requires forall k | 0 <= k < |issues| :: IndexResolves(issues[k].0, local, shift, issues[k].1)
    requires forall k | 0 <= k < |more| :: IndexResolves(more[k].0, extended, shift, more[k].1)
    ensures forall k | 0 <= k < |issues + more| ::
      IndexResolves((issues + more)[k].0, extended, shift, (issues + more)[k].1)
  {
    forall k | 0 <= k < |issues + more|
      ensures IndexResolves((issues + more)[k].0, extended, shift, (issues + more)[k].1)
    {
      if k < |issues| {
        ResolvesExtends(issues[k].0, local, extended, shift, issues[k].1);
      } else {
        assert (issues + more)[k] == more[k - |issues|];
      }
    }
  }

  /** The records of triangle k: the material switch first when there is one, then its face. */
  predicate FaceRecordAt(records: seq<Record>, k: nat, tri: seq<Point3>, local: seq<Point3>,
                         shift: nat, material: Option<real>)
    requires FaceSlot(material, k) < |records|
  {
    var f := records[FaceSlot(material, k)];
    && (HasMaterial(material) ==> records[2 * k] == UseMtl(material.value))
    && f.Face?
    && |f.indices| == |tri|
    && forall j | 0 <= j < |tri| :: IndexResolves(f.indices[j], local, shift, tri[j])
  }

  /** An index that resolves in a list still resolves in any extension of it. */
  lemma ResolvesExtends(v: nat, local: seq<Point3>, longer: seq<Point3>, shift: nat, p: Point3)
    requires IndexResolves(v, local, shift, p) && local <= longer
    ensures IndexResolves(v, longer, shift, p)
  {
    assert longer[v - 1 - shift] == local[v - 1 - shift];
  }

  /** The records of an earlier triangle are kept when one more triangle is emitted. */
  lemma EmitAllKeepsEarlier(tris: seq<seq<Point3>>, local: seq<Point3>, shift: nat, material: Option<real>, k: nat)
    requires 0 <= k < |tris| - 1
    requires var prev := EmitAll(DropLast(tris), local, shift, material);
      FaceRecordAt(prev.0, k, DropLast(tris)[k], prev.1, shift, material)
    ensures var r := EmitAll(tris, local, shift, material);
      FaceRecordAt(r.0, k, tris[k], r.1, shift, material)
  {
    var prev := EmitAll(DropLast(tris), local, shift, material);
    var r := EmitAll(tris, local, shift, material);
    assert prev.0 <= r.0;
    var f := r.0[FaceSlot(material, k)];
    assert f == prev.0[FaceSlot(material, k)];
    assert DropLast(tris)[k] == tris[k];
    forall j | 0 <= j < |tris[k]|
      ensures IndexResolves(f.indices[j], r.1, shift, tris[k][j])
    {
      ResolvesExtends(f.indices[j], prev.1, r.1, shift, tris[k][j]);
    }
  }

  /** The records of the last triangle emitted: its material switch and its face. */
  lemma EmitAllLast(tris: seq<seq<Point3>>, local: seq<Point3>, shift: nat, material: Option<real>)
    requires |tris| > 0
    ensures var r := EmitAll(tris, local, shift, material);
      FaceRecordAt(r.0, |tris| - 1, tris[|tris| - 1], r.1, shift, material)
  {
  }

  /**
   * Each triangle yields its own block of records in order: the material switch when there is a
   * material, then one face holding as many indices as the triangle has points, each resolving
   * to that point once the local list is complete.
   */
  lemma {:induction false} EmitAllRecords(tris: seq<seq<Point3>>, local: seq<Point3>, shift: nat, material: Option<real>)
    ensures var r := EmitAll(tris, local, shift, material);
      forall k | 0 <= k < |tris| :: FaceRecordAt(r.0, k, tris[k], r.1, shift, material)
  {
    if |tris| > 0 {
      EmitAllRecords(DropLast(tris), local, shift, material);
      forall k | 0 <= k < |tris| - 1
        ensures var r := EmitAll(tris, local, shift, material);
          FaceRecordAt(r.0, k, tris[k], r.1, shift, material)
      {
        EmitAllKeepsEarlier(tris, local, shift, material, k);
      }
      EmitAllLast(tris, local, shift, material);
    }
  }

  /** Emitting faces keeps a duplicate-free local list duplicate-free. */
  lemma {:induction false} EmitAllKeepsDistinct(tris: seq<seq<Point3>>, local: seq<Point3>, shift: nat,
                                                material: Option<real>)
    requires NoDuplicates(local)
    ensures NoDuplicates(EmitAll(tris, local, shift, material).1)
  {
    if |tris| > 0 {
      EmitAllKeepsDistinct(DropLast(tris), local, shift, material);
      FaceIndicesKeepDistinct(tris[|tris| - 1], EmitAll(DropLast(tris), local, shift, material).1, shift);
    }
  }

  /** Indexing the points of one face keeps a duplicate-free local list duplicate-free. */
  lemma {:induction false} FaceIndicesKeepDistinct(tri: seq<Point3>, local: seq<Point3>, shift: nat)
    requires NoDuplicates(local)
    ensures NoDuplicates(FaceIndices(tri, local, shift).1)
  {
    if |tri| > 0 {
      FaceIndicesKeepDistinct(DropLast(tri), local, shift);
      GetIndexKeepsDistinct(tri[|tri| - 1], FaceIndices(DropLast(tri), local, shift).1, shift);
    }
  }

  // -------------------------------------------------------- validation gate

  /** The check of the interior rings: every ring is tested, the first error raised stops it. */
  function RingsValid(irings: seq<seq<Point3>>, sqrt: real -> real): Result<bool>
    requires IsSqrt(sqrt)
  {
    if |irings| == 0 then Ok(true)
    else
      var prev :- RingsValid(DropLast(irings), sqrt);
      var last :- IsPolyValid(irings[|irings| - 1], sqrt);
      Ok(prev && last)
  }

  /**
   * The check of the interior rings raises exactly when the check of some ring raises; otherwise
   * it passes exactly when every ring is valid.
   */
  lemma {:induction false} RingsValidMeaning(irings: seq<seq<Point3>>, sqrt: real -> real)
    requires IsSqrt(sqrt)
    ensures RingsValid(irings, sqrt).Err? <==> exists k | 0 <= k < |irings| :: IsPolyValid(irings[k], sqrt).Err?
    ensures RingsValid(irings, sqrt).Ok? ==>
      (RingsValid(irings, sqrt).value <==> forall k | 0 <= k < |irings| :: IsPolyValid(irings[k], sqrt) == Ok(true))
  {
    if |irings| > 0 {
      var n, init := |irings|, DropLast(irings);
      RingsValidMeaning(init, sqrt);
      if RingsValid(init, sqrt).Err? {
        var k :| 0 <= k < n - 1 && IsPolyValid(init[k], sqrt).Err?;
        assert irings[k] == init[k];
      } else if IsPolyValid(irings[n - 1], sqrt).Ok? {
        forall k | 0 <= k < n
          ensures IsPolyValid(irings[k], sqrt).Ok?
          ensures IsPolyValid(irings[k], sqrt) == Ok(true) <== RingsValid(irings, sqrt) == Ok(true)
        {
          if k < n - 1 {
            assert irings[k] == init[k];
          }
        }
        if RingsValid(irings, sqrt) == Ok(false) {
          if IsPolyValid(irings[n - 1], sqrt) == Ok(true) {
            var k :| 0 <= k < n - 1 && IsPolyValid(init[k], sqrt) != Ok(true);
            assert irings[k] == init[k];
          }
        }
      }
    }
  }

  /** Once the check of a prefix of the rings raises, the check of all of them raises the same error. */
  lemma {:induction false} RingsErrorPersists(irings: seq<seq<Point3>>, n: nat, sqrt: real -> real)
    requires IsSqrt(sqrt) && n <= |irings| && RingsValid(irings[..n], sqrt).Err?
    ensures RingsValid(irings, sqrt) == RingsValid(irings[..n], sqrt)
  {
    if n < |irings| {
      var init := DropLast(irings);
      assert init[..n] == irings[..n];
      RingsErrorPersists(init, n, sqrt);
    } else {
      assert irings[..n] == irings;
    }
  }

  /**
   * The loop of poly_to_obj over the interior rings of a valid exterior: any invalid ring clears
   * the flag, and an error raised by a ring's check stops the loop.
   */
  method CheckInteriors(irings: seq<seq<Point3>>, sqrt: real -> real) returns (r: Result<bool>)
    requires IsSqrt(sqrt)
    ensures r == RingsValid(irings, sqrt)
  {
    var ok := true;
    var k := 0;
    assert irings[..0] == [];
    while k < |irings|
      invariant 0 <= k <= |irings|
      invariant RingsValid(irings[..k], sqrt) == Ok(ok)
    {
      assert DropLast(irings[..k + 1]) == irings[..k];
      var ringValid := IsPolyValid(irings[k], sqrt);
      if ringValid.Err? {
        RingsErrorPersists(irings, k + 1, sqrt);
        return Err(ringValid.error);
      }
      if !ringValid.value {
        ok := false;
      }
      k := k + 1;
    }
    assert irings[..k] == irings;
    return Ok(ok);
  }

  /**
   * What poly_to_obj does with a polygon before emitting anything: with validation on, an invalid
   * exterior skips it without looking at the interiors, a valid one has every interior checked and
   * any invalid one skips it; a polygon that is not skipped is triangulated. None means skipped.
   */
  function Accepted(validation: bool, e: seq<Point3>, irings: seq<seq<Point3>>, sqrt: real -> real,
                    triangulate: Pslg -> Result<Mesh>): (r: Result<Option<seq<seq<Point3>>>>)
    requires IsSqrt(sqrt)
    ensures r == Ok(None) <==>
      validation && (IsPolyValid(e, sqrt) == Ok(false) ||
                     (IsPolyValid(e, sqrt) == Ok(true) && RingsValid(irings, sqrt) == Ok(false)))
    ensures r.Ok? && r.value.Some? ==>
      && TriangulationOf(e, irings, sqrt, triangulate) == Ok(r.value.value)
      && (validation ==> IsPolyValid(e, sqrt) == Ok(true) && RingsValid(irings, sqrt) == Ok(true))
  {
    if validation then
      var valid :- IsPolyValid(e, sqrt);
      if !valid then Ok(None)
      else
        var ringsValid :- RingsValid(irings, sqrt);
        if !ringsValid then Ok(None)
        else
          var t :- TriangulationOf(e, irings, sqrt, triangulate);
          Ok(Some(t))
    else
      var t :- TriangulationOf(e, irings, sqrt, triangulate);
      Ok(Some(t))
  }

  /**
   * With validation on, the faces of an accepted polygon all lie on the plane of its first three
   * exterior points and carry the exterior's unit normal.
   */
  lemma ValidatedFacesFollowPolygon(e: seq<Point3>, irings: seq<seq<Point3>>, sqrt: real -> real,
                                    triangulate: Pslg -> Result<Mesh>)
    requires IsSqrt(sqrt)
    requires Accepted(true, e, irings, sqrt, triangulate).Ok?
    requires Accepted(true, e, irings, sqrt, triangulate).value.Some?
    ensures var faces, pl := Accepted(true, e, irings, sqrt, triangulate).value.value, PlaneThrough(e[0], e[1], e[2]);
      && UnitNormal(e[0], e[1], e[2], sqrt).Ok?
      && forall k | 0 <= k < |faces| ::
           && |faces[k]| == 3
           && OnPlane(pl, faces[k][0]) && OnPlane(pl, faces[k][1]) && OnPlane(pl, faces[k][2])
           && UnitNormal(faces[k][0], faces[k][1], faces[k][2], sqrt) == UnitNormal(e[0], e[1], e[2], sqrt)
  {
    TriangulationFollowsPolygon(e, irings, sqrt, triangulate);
  }

  // -------------------------------------------------------------- converter

  /**
   * The inner loop of poly_to_obj over the points of one triangle: every point goes through
   * get_index on the local table.
   */
  method IndexCorners(tri: seq<Point3>, local: seq<Point3>, shift: nat) returns (f: seq<nat>, newLocal: seq<Point3>)
    ensures (f, newLocal) == FaceIndices(tri, local, shift)
  {
    f, newLocal := [], local;
    var ep := 0;
    assert tri[..0] == [];
    while ep < |tri|
      invariant 0 <= ep <= |tri|
      invariant (f, newLocal) == FaceIndices(tri[..ep], local, shift)
    {
      FaceIndicesStep(tri, ep, local, shift, f, newLocal);
      var indexed := GetIndex(tri[ep], newLocal, shift);
      f, newLocal := f + [indexed.0], indexed.1;
      ep := ep + 1;
    }
    assert tri[..ep] == tri;
  }

  /**
   * The loop of poly_to_obj over the triangles: the points of each are indexed, then the material
   * switch (when there is a material) and the face are appended to the records.
   */
  method EmitLoop(tris: seq<seq<Point3>>, local: seq<Point3>, shift: nat, material: Option<real>)
    returns (records: seq<Record>, newLocal: seq<Point3>)
    ensures (records, newLocal) == EmitAll(tris, local, shift, material)
  {
    records, newLocal := [], local;
    var i := 0;
    while i < |tris|
      invariant 0 <= i <= |tris|
      invariant (records, newLocal) == EmitAll(tris[..i], local, shift, material)
    {
      var f, extended := IndexCorners(tris[i], newLocal, shift);
      EmitAllStep(tris, i, local, shift, material, records, newLocal, f, extended);
      records, newLocal := records + MaterialSwitch(material) + [Face(f)], extended;
      i := i + 1;
    }
    assert tris[..i] == tris;
  }

  /**
   * The four tables of the converter share their classes, the issued indices of every class are
   * the face indices of its output in order, and every issued index resolves in the global table
   * followed by the local one.
   */
  ghost predicate TablesValid(vertices: map<string, seq<Point3>>, local: map<string, seq<Point3>>,
                              faceOutput: map<string, seq<Record>>, issued: map<string, seq<Issue>>) {
    && vertices.Keys == local.Keys && local.Keys == faceOutput.Keys && faceOutput.Keys == issued.Keys
    && AllResolve(issued, vertices, local)
    && IndicesMatch(issued, faceOutput)
  }

  /**
   * Emitting the faces of some triangles into class cl, with their pairs recorded as issued,
   * keeps the tables valid.
   */
  lemma EmitKeepsTables(vertices: map<string, seq<Point3>>, local: map<string, seq<Point3>>,
                        faceOutput: map<string, seq<Record>>, issued: map<string, seq<Issue>>,
                        cl: string, tris: seq<seq<Point3>>, material: Option<real>)
    requires TablesValid(vertices, local, faceOutput, issued) && cl in vertices
    ensures TablesValid(vertices, local[cl := EmitAll(tris, local[cl], |vertices[cl]|, material).1],
                        faceOutput[cl := faceOutput[cl] + EmitAll(tris, local[cl], |vertices[cl]|, material).0],
                        issued[cl := issued[cl] + EmitPairs(tris, local[cl], |vertices[cl]|, material)])
  {
    var shift := |vertices[cl]|;
    var out := EmitAll(tris, local[cl], shift, material);
    var pairs := EmitPairs(tris, local[cl], shift, material);
    EmitPairsResolve(tris, local[cl], shift, material);
    EmitPairsMatch(tris, local[cl], shift, material);
    IndicesMatchAppend(issued, faceOutput, cl, pairs, out.0);
    LocalGrows(issued, vertices, local, cl, out.1);
    IssueMany(issued, vertices, local[cl := out.1], cl, pairs);
  }

  /** The issued indices of every class are the face indices of its output, in order. */
  ghost predicate IndicesMatch(issued: map<string, seq<Issue>>, faceOutput: map<string, seq<Record>>) {
    forall c {:trigger Matches(issued[c], faceOutput[c])} | c in issued && c in faceOutput ::
      Matches(issued[c], faceOutput[c])
  }

  /** The issued indices are the face indices of the records, in order. */
  ghost predicate Matches(issues: seq<Issue>, records: seq<Record>) {
    IndicesOf(issues) == FaceIndexList(records)
  }

  /** Appending faces to one class together with their pairs keeps the issued indices matching the faces. */
  lemma IndicesMatchAppend(issued: map<string, seq<Issue>>, faceOutput: map<string, seq<Record>>, cl: string,
                           pairs: seq<Issue>, records: seq<Record>)
    requires IndicesMatch(issued, faceOutput) && cl in issued && cl in faceOutput
    requires Matches(pairs, records)
    ensures IndicesMatch(issued[cl := issued[cl] + pairs], faceOutput[cl := faceOutput[cl] + records])
  {
    var more, faces := issued[cl := issued[cl] + pairs], faceOutput[cl := faceOutput[cl] + records];
    forall c | c in more && c in faces
      ensures Matches(more[c], faces[c])
    {
      if c == cl {
        assert Matches(issued[cl], faceOutput[cl]);
        FaceIndexListAppend(faceOutput[cl], records);
        OfAppend(issued[cl], pairs);
      } else {
        assert Matches(issued[c], faceOutput[c]);
      }
    }
  }

  /** The classes are the same and every list of before is a prefix of its list in after. */
  ghost predicate Extends<T>(before: map<string, seq<T>>, after: map<string, seq<T>>) {
    before.Keys == after.Keys && forall c | c in before :: before[c] <= after[c]
  }

  lemma ExtendsTrans<T>(a: map<string, seq<T>>, b: map<string, seq<T>>, c: map<string, seq<T>>)
    requires Extends(a, b) && Extends(b, c)
    ensures Extends(a, c)
  {
  }

  lemma ExtendsAppend<T>(m: map<string, seq<T>>, cl: string, more: seq<T>)
    requires cl in m
    ensures Extends(m, m[cl := m[cl] + more])
  {
  }

  /** The issued index resolves to its point in table. */
  ghost predicate Resolves(issue: Issue, table: seq<Point3>) {
    1 <= issue.0 <= |table| && table[issue.0 - 1] == issue.1
  }

  /** Every issued index of every class resolves in that class's global table followed by its local one. */
  ghost predicate AllResolve(issued: map<string, seq<Issue>>, global: map<string, seq<Point3>>,
                             local: map<string, seq<Point3>>) {
    forall c | c in issued ::
      c in global && c in local && forall k | 0 <= k < |issued[c]| :: Resolves(issued[c][k], global[c] + local[c])
  }

  /** Growing the local table of one class keeps every issued index resolving. */
  lemma LocalGrows(issued: map<string, seq<Issue>>, global: map<string, seq<Point3>>,
                   local: map<string, seq<Point3>>, cl: string, longer: seq<Point3>)
    requires AllResolve(issued, global, local) && cl in local && local[cl] <= longer
    ensures AllResolve(issued, global, local[cl := longer])
  {
    forall c, k | c in issued && 0 <= k < |issued[c]|
      ensures c in global && c in local[cl := longer] && Resolves(issued[c][k], global[c] + local[cl := longer][c])
    {
      assert c in global && c in local && Resolves(issued[c][k], global[c] + local[c]);
      var table := global[c] + local[c];
      assert table <= global[c] + local[cl := longer][c];
      assert table[issued[c][k].0 - 1] == issued[c][k].1;
    }
  }

  /** Recording indices that resolve after the global table of class cl keeps every issued index resolving. */
  lemma IssueMany(issued: map<string, seq<Issue>>, global: map<string, seq<Point3>>,
                  local: map<string, seq<Point3>>, cl: string, issues: seq<Issue>)
    requires AllResolve(issued, global, local) && cl in issued && cl in global && cl in local
    requires forall k | 0 <= k < |issues| :: IndexResolves(issues[k].0, local[cl], |global[cl]|, issues[k].1)
    ensures AllResolve(issued[cl := issued[cl] + issues], global, local)
  {
    var more := issued[cl := issued[cl] + issues];
    forall c, k | c in more && 0 <= k < |more[c]|
      ensures Resolves(more[c][k], global[c] + local[c])
    {
      if c != cl || k < |issued[cl]| {
        assert more[c][k] == issued[c][k];
      } else {
        var x := issues[k - |issued[cl]|];
        assert more[c][k] == x;
        assert (global[cl] + local[cl])[x.0 - 1] == local[cl][x.0 - 1 - |global[cl]|];
      }
    }
  }

  /** Once the local tables are merged, every issued index resolves in the global tables alone. */
  lemma MergedResolve(issued: map<string, seq<Issue>>, global: map<string, seq<Point3>>,
                      local: map<string, seq<Point3>>, merged: map<string, seq<Point3>>)
    requires AllResolve(issued, global, local) && issued.Keys <= merged.Keys
    requires forall c | c in issued :: c in global && c in local && merged[c] == global[c] + local[c]
    ensures AllResolve(issued, merged, map c | c in merged :: [])
    ensures AllResolve(issued, merged, local)
  {
    forall c, k | c in issued && 0 <= k < |issued[c]|
      ensures Resolves(issued[c][k], merged[c] + (map c | c in merged :: [])[c])
      ensures Resolves(issued[c][k], merged[c] + local[c])
    {
      assert merged[c] + (map c | c in merged :: [])[c] == merged[c];
      assert merged[c] <= merged[c] + local[c];
      assert Resolves(issued[c][k], global[c] + local[c]);
    }
  }

  /**
   * Once every issued index resolves in the global tables alone, every index of every face of
   * every class resolves in its global table to the point it was issued for.
   */
  lemma SettledFacesResolve(issued: map<string, seq<Issue>>, global: map<string, seq<Point3>>,
                            faceOutput: map<string, seq<Record>>)
    requires AllResolve(issued, global, map c | c in global :: []) && faceOutput.Keys == issued.Keys
    requires IndicesMatch(issued, faceOutput)
    ensures forall c | c in faceOutput :: c in issued && c in global && FacesResolve(faceOutput[c], issued[c], global[c])
  {
    forall c | c in faceOutput
      ensures c in issued && c in global && FacesResolve(faceOutput[c], issued[c], global[c])
    {
      assert global[c] + (map c | c in global :: [])[c] == global[c];
      assert Matches(issued[c], faceOutput[c]);
      AllFacesResolve(issued[c], faceOutput[c], global[c]);
    }
  }

  /** One polygon of a building: its semantic class, rings and attribute value. */
  datatype PolygonJob = PolygonJob(cl: string, exterior: seq<Point3>, interiors: seq<seq<Point3>>,
                                   material: Option<real>)

  /** The tables a building changes: the local vertex tables, the face output and the issued pairs. */
  datatype BuildState = BuildState(local: map<string, seq<Point3>>, faces: map<string, seq<Record>>,
                                   issued: map<string, seq<Issue>>)

  /** The global table and the building's tables share their classes. */
  predicate Fits(global: map<string, seq<Point3>>, st: BuildState) {
    global.Keys == st.local.Keys && st.local.Keys == st.faces.Keys && st.faces.Keys == st.issued.Keys
  }

  /** What poly_to_obj decides for one polygon: an error, skipped (None), or the triangles to emit. */
  type Decision = Result<Option<seq<seq<Point3>>>>

  /** No decision in ds is an error. */
  predicate NoneFailed(ds: seq<Decision>)
    decreases |ds|
  {
    |ds| == 0 || (NoneFailed(ds[..|ds| - 1]) && ds[|ds| - 1].Ok?)
  }

  /** One more Ok decision keeps NoneFailed. */
  lemma NoneFailedStep(ds: seq<Decision>, i: nat)
    requires i < |ds| && NoneFailed(ds[..i]) && ds[i].Ok?
    ensures NoneFailed(ds[..i + 1])
  {
    assert ds[..i + 1][..i] == ds[..i];
  }

  /** The whole of a sequence is its longest prefix. */
  lemma WholePrefix<T>(s: seq<T>)
    ensures s[..|s|] == s
  {
  }

  /** NoneFailed of the first k decisions says that each of them is Ok. */
  lemma {:induction false} NoneFailedMeans(ds: seq<Decision>, k: nat)
    requires k <= |ds|
    ensures NoneFailed(ds[..k]) <==> forall j | 0 <= j < k :: ds[j].Ok?
  {
    if k > 0 {
      NoneFailedMeans(ds, k - 1);
      assert ds[..k][..k - 1] == ds[..k - 1];
    }
  }

  /** The decision of poly_to_obj for every polygon of a building, in order. */
  function Decisions(validation: bool, sqrt: real -> real, triangulate: Pslg -> Result<Mesh>,
                     polygons: seq<PolygonJob>): (d: seq<Decision>)
    requires IsSqrt(sqrt)
    ensures |d| == |polygons|
  {
    if |polygons| == 0 then []
    else
      var n := |polygons| - 1;
      Decisions(validation, sqrt, triangulate, polygons[..n]) +
        [Accepted(validation, polygons[n].exterior, polygons[n].interiors, sqrt, triangulate)]
  }

  /**
   * One polygon of a building, given its decision: the error, the tables unchanged when it is
   * skipped, or its faces and pairs emitted into its class with shift len(vertices[cl]).
   */
  function PolygonStep(global: map<string, seq<Point3>>, st: BuildState, job: PolygonJob, acc: Decision)
    : (r: Result<BuildState>)
    requires Fits(global, st) && job.cl in global
    ensures r.Ok? ==> Fits(global, r.value)
  {
    var tris :- acc;
    if tris.None? then Ok(st)
    else
      var cl, shift := job.cl, |global[job.cl]|;
      var out := EmitAll(tris.value, st.local[cl], shift, job.material);
      Ok(BuildState(st.local[cl := out.1], st.faces[cl := st.faces[cl] + out.0],
                    st.issued[cl := st.issued[cl] + EmitPairs(tris.value, st.local[cl], shift, job.material)]))
  }

  /** The polygons of a building converted in order from st; the first error raised stops the building. */
  function BuildingRun(global: map<string, seq<Point3>>, st: BuildState, polygons: seq<PolygonJob>,
                       decisions: seq<Decision>): (r: Result<BuildState>)
    requires Fits(global, st) && |decisions| == |polygons|
    requires forall k | 0 <= k < |polygons| :: polygons[k].cl in global
    ensures r.Ok? ==> Fits(global, r.value)
    decreases |polygons|
  {
    if |polygons| == 0 then Ok(st)
    else
      var n := |polygons| - 1;
      var prev :- BuildingRun(global, st, polygons[..n], decisions[..n]);
      PolygonStep(global, prev, polygons[n], decisions[n])
  }

  /** Converting polygons in order from start, with the given decisions, ends without error in end. */
  predicate RunReaches(global: map<string, seq<Point3>>, start: BuildState, polygons: seq<PolygonJob>,
                       decisions: seq<Decision>, end: BuildState)
  {
    && Fits(global, start) && |decisions| == |polygons|
    && (forall k | 0 <= k < |polygons| :: polygons[k].cl in global)
    && BuildingRun(global, start, polygons, decisions) == Ok(end)
  }

  /** Converting one more polygon is one more step after the run of the ones before it. */
  lemma BuildingRunStep(global: map<string, seq<Point3>>, st: BuildState, polygons: seq<PolygonJob>,
                        decisions: seq<Decision>, k: nat)
    requires Fits(global, st) && |decisions| == |polygons| && k < |polygons|
    requires forall j | 0 <= j < |polygons| :: polygons[j].cl in global
    ensures var prev := BuildingRun(global, st, polygons[..k], decisions[..k]);
      BuildingRun(global, st, polygons[..k + 1], decisions[..k + 1]) ==
        if prev.Err? then Err(prev.error) else PolygonStep(global, prev.value, polygons[k], decisions[k])
  {
    assert polygons[..k + 1][..k] == polygons[..k];
    assert decisions[..k + 1][..k] == decisions[..k];
  }

  /**
   * A run of the first k polygons that reaches mid without a failed decision, followed by a step
   * of polygon k from mid to end, reaches end without a failed decision.
   */
  lemma ReachesStep(global: map<string, seq<Point3>>, st: BuildState, polygons: seq<PolygonJob>,
                    decisions: seq<Decision>, k: nat, mid: BuildState, end: BuildState)
    requires |decisions| == |polygons| && k < |polygons|
    requires forall j | 0 <= j < |polygons| :: polygons[j].cl in global
    requires NoneFailed(decisions[..k]) && RunReaches(global, st, polygons[..k], decisions[..k], mid)
    requires PolygonStep(global, mid, polygons[k], decisions[k]) == Ok(end)
    ensures NoneFailed(decisions[..k + 1]) && RunReaches(global, st, polygons[..k + 1], decisions[..k + 1], end)
  {
    BuildingRunStep(global, st, polygons, decisions, k);
    NoneFailedStep(decisions, k);
  }

  /** Decision k is what poly_to_obj decides for polygon k. */
  lemma {:induction false} DecisionAt(validation: bool, sqrt: real -> real, triangulate: Pslg -> Result<Mesh>,
                   polygons: seq<PolygonJob>, k: nat)
    requires IsSqrt(sqrt) && k < |polygons|
    ensures Decisions(validation, sqrt, triangulate, polygons)[k] ==
            Accepted(validation, polygons[k].exterior, polygons[k].interiors, sqrt, triangulate)
  {
    var n := |polygons| - 1;
    if k < n {
      DecisionAt(validation, sqrt, triangulate, polygons[..n], k);
      assert polygons[..n][k] == polygons[k];
    }
  }

  /** What PolyToObj does to the tables, given its outcome, is one step of the building. */
  lemma StepOfOutcome(global: map<string, seq<Point3>>, before: BuildState, after: BuildState, job: PolygonJob,
                      acc: Decision, r: Result<bool>)
    requires Fits(global, before) && job.cl in global
    requires acc.Err? ==> r == Err(acc.error)
    requires acc.Ok? ==> r == Ok(acc.value.Some?)
    requires r == Ok(true) ==>
      var cl, shift := job.cl, |global[job.cl]|;
      var out := EmitAll(acc.value.value, before.local[cl], shift, job.material);
      after == BuildState(before.local[cl := out.1], before.faces[cl := before.faces[cl] + out.0],
                          before.issued[cl := before.issued[cl] + EmitPairs(acc.value.value, before.local[cl], shift, job.material)])
    requires r != Ok(true) ==> after == before
    ensures PolygonStep(global, before, job, acc) == if r.Err? then Err(r.error) else Ok(after)
  {
  }

  /** The corners of the accepted triangles of the class-c polygons, polygon after polygon. */
  function ClassCorners(polygons: seq<PolygonJob>, decisions: seq<Decision>, c: string): seq<Point3>
    requires |decisions| == |polygons|
  {
    if |polygons| == 0 then []
    else
      var n := |polygons| - 1;
      ClassCorners(polygons[..n], decisions[..n], c) +
        if polygons[n].cl == c && decisions[n].Ok? && decisions[n].value.Some? then Corners(decisions[n].value.value)
        else []
  }

  /**
   * The points of the pairs a building issues to class c are the corners of the accepted
   * triangles of its class-c polygons, in order.
   */
  lemma {:induction false} BuildingRunCorners(global: map<string, seq<Point3>>, st: BuildState,
                                              polygons: seq<PolygonJob>, decisions: seq<Decision>, c: string)
    requires Fits(global, st) && |decisions| == |polygons| && c in global
    requires forall k | 0 <= k < |polygons| :: polygons[k].cl in global
    requires BuildingRun(global, st, polygons, decisions).Ok?
    ensures PointsOf(BuildingRun(global, st, polygons, decisions).value.issued[c]) ==
            PointsOf(st.issued[c]) + ClassCorners(polygons, decisions, c)
  {
    if |polygons| == 0 {
      assert PointsOf(st.issued[c]) + [] == PointsOf(st.issued[c]);
    } else {
      var n := |polygons| - 1;
      var init, dinit := polygons[..n], decisions[..n];
      var prev := BuildingRun(global, st, init, dinit).value;
      BuildingRunCorners(global, st, init, dinit, c);
      var before := ClassCorners(init, dinit, c);
      var job, acc := polygons[n], decisions[n].value;
      if job.cl == c && acc.Some? {
        var pairs := EmitPairs(acc.value, prev.local[c], |global[c]|, job.material);
        EmitPairsMatch(acc.value, prev.local[c], |global[c]|, job.material);
        OfAppend(prev.issued[c], pairs);
        ConcatAssoc(PointsOf(st.issued[c]), before, Corners(acc.value));
      } else {
        assert before + [] == before;
      }
    }
  }

  /**
   * The module-level tables of CityGML2OBJs.py: vertices (global, per class), local_vertices (of
   * the current building) and face_output. The ghost issued records every face index handed out
   * with the point it was handed out for.
   */
  class Converter {
    const validation: bool
    const sqrt: real -> real
    const triangulate: Pslg -> Result<Mesh>
    var vertices: map<string, seq<Point3>>
    var localVertices: map<string, seq<Point3>>
    var faceOutput: map<string, seq<Record>>
    ghost var issued: map<string, seq<Issue>>

    /**
     * The four tables share their classes, the issued indices of every class are the face indices
     * of its output in order, and every issued index resolves in global followed by local.
     */
    ghost predicate Valid()
      reads this`vertices, this`localVertices, this`faceOutput, this`issued
    {
      TablesValid(vertices, localVertices, faceOutput, issued)
    }

    /** Between buildings: every issued index resolves in the global table alone. */
    ghost predicate Settled()
      reads this`vertices, this`localVertices, this`faceOutput, this`issued
    {
      && Valid()
      && AllResolve(issued, vertices, map c | c in vertices :: [])
    }

    /** The tables start empty for every class. */
    constructor(classes: set<string>, validation: bool, sqrt: real -> real, triangulate: Pslg -> Result<Mesh>)
      requires IsSqrt(sqrt)
      ensures Settled()
      ensures this.validation == validation && this.sqrt == sqrt && this.triangulate == triangulate
      ensures vertices == (map c | c in classes :: []) && localVertices == vertices
      ensures faceOutput == (map c | c in classes :: [])
    {
      this.validation := validation;
      this.sqrt := sqrt;
      this.triangulate := triangulate;
      vertices := map c | c in classes :: [];
      localVertices := map c | c in classes :: [];
      faceOutput := map c | c in classes :: [];
      issued := map c | c in classes :: [];
    }

    /** A new building: every local table starts empty. */
    method StartBuilding()
      requires Settled()
      modifies this
      ensures Settled()
      ensures localVertices == map c | c in old(vertices) :: []
      ensures vertices == old(vertices) && faceOutput == old(faceOutput) && issued == old(issued)
    {
      localVertices := map c | c in vertices :: [];
    }

    /**
     * poly_to_obj: a skipped polygon (Ok(false)) and a raised error change nothing; an accepted one
     * (Ok(true)) gets the records of all its triangles appended to its class's face output, the
     * local table extended with its new points, and the pairs of its faces recorded as issued.
     */
    method PolyToObj(e: seq<Point3>, irings: seq<seq<Point3>>, cl: string, material: Option<real>)
      returns (r: Result<bool>)
      requires Valid() && IsSqrt(sqrt) && cl in vertices && cl in localVertices && cl in faceOutput
      modifies this
      ensures Valid()
      ensures vertices == old(vertices)
      ensures var acc := Accepted(validation, e, irings, sqrt, triangulate);
        && (acc.Err? ==> r == Err(acc.error))
        && (acc.Ok? ==> r == Ok(acc.value.Some?))
      ensures r == Ok(true) ==>
        var out := EmitAll(Accepted(validation, e, irings, sqrt, triangulate).value.value,
                           old(localVertices[cl]), |vertices[cl]|, material);
        && faceOutput == old(faceOutput)[cl := old(faceOutput[cl]) + out.0]
        && localVertices == old(localVertices)[cl := out.1]
        && issued == old(issued)[cl := old(issued[cl]) + EmitPairs(Accepted(validation, e, irings, sqrt, triangulate).value.value,
                                                                   old(localVertices[cl]), |vertices[cl]|, material)]
      ensures r != Ok(true) ==>
        faceOutput == old(faceOutput) && localVertices == old(localVertices) && issued == old(issued)
      ensures Extends(old(faceOutput), faceOutput) && Extends(old(issued), issued)
    {
      if validation {
        var valid := IsPolyValid(e, sqrt);
        if valid.Err? {
          return Err(valid.error);
        }
        if !valid.value {
          return Ok(false);
        }
        var ringsValid := CheckInteriors(irings, sqrt);
        if ringsValid.Err? {
          return Err(ringsValid.error);
        }
        if !ringsValid.value {
          return Ok(false);
        }
      }
      var t := Triangulation.Triangulation(e, irings, sqrt, triangulate);
      if t.Err? {
        return Err(t.error);
      }
      EmitFaces(t.value, cl, material);
      return Ok(true);
    }

    /**
     * The loops of poly_to_obj over the triangles of an accepted polygon: their records are
     * appended to the face output of class cl, the new points to its local table, and the pairs
     * of its faces to the issued list of cl.
     */
    method EmitFaces(tris: seq<seq<Point3>>, cl: string, material: Option<real>)
      requires Valid() && cl in vertices && cl in localVertices && cl in faceOutput
      modifies this
      ensures Valid()
      ensures vertices == old(vertices)
      ensures var out := EmitAll(tris, old(localVertices[cl]), |vertices[cl]|, material);
        && faceOutput == old(faceOutput)[cl := old(faceOutput[cl]) + out.0]
        && localVertices == old(localVertices)[cl := out.1]
        && issued == old(issued)[cl := old(issued[cl]) + EmitPairs(tris, old(localVertices[cl]), |vertices[cl]|, material)]
      ensures Extends(old(faceOutput), faceOutput) && Extends(old(issued), issued)
    {
      var shift := |vertices[cl]|;
      var records, local := EmitLoop(tris, localVertices[cl], shift, material);
      ghost var pairs := EmitPairs(tris, localVertices[cl], shift, material);
      EmitKeepsTables(vertices, localVertices, faceOutput, issued, cl, tris, material);
      ExtendsAppend(issued, cl, pairs);
      ExtendsAppend(faceOutput, cl, records);
      issued := issued[cl := issued[cl] + pairs];
      localVertices := localVertices[cl := local];
      faceOutput := faceOutput[cl := faceOutput[cl] + records];
    }

    /** The merge at the end of a building: every local table is appended to its class's global table. */
    method MergeLocal()
      requires Valid()
      modifies this
      ensures Settled()
      ensures vertices == map c | c in old(vertices) :: old(vertices)[c] + old(localVertices)[c]
      ensures localVertices == old(localVertices) && faceOutput == old(faceOutput) && issued == old(issued)
    {
      var classes := localVertices.Keys;
      while classes != {}
        invariant classes <= localVertices.Keys && vertices.Keys == old(vertices).Keys
        invariant localVertices == old(localVertices) && faceOutput == old(faceOutput) && issued == old(issued)
        invariant forall c | c in vertices ::
          vertices[c] == if c in classes then old(vertices)[c] else old(vertices)[c] + localVertices[c]
        decreases classes
      {
        var cl :| cl in classes;
        MergeClass(cl);
        classes := classes - {cl};
      }
      MergedResolve(issued, old(vertices), localVertices, vertices);
    }

    /** The inner loop of the merge for class cl: each point of its local table is appended to its global one. */
    method MergeClass(cl: string)
      requires cl in vertices && cl in localVertices
      modifies this`vertices
      ensures vertices == old(vertices)[cl := old(vertices)[cl] + localVertices[cl]]
    {
      var local := localVertices[cl];
      var k := 0;
      assert local[..0] == [] && vertices[cl] + [] == vertices[cl];
      while k < |local|
        invariant 0 <= k <= |local|
        invariant vertices == old(vertices)[cl := old(vertices)[cl] + local[..k]]
      {
        AppendOne(old(vertices)[cl], local, k);
        vertices := vertices[cl := vertices[cl] + [local[k]]];
        k := k + 1;
      }
      assert local[..k] == local;
    }

    /**
     * One building: reset the local tables, convert its polygons in order, and merge. It raises
     * exactly when the decision of one of its polygons is an error, with the error of the first
     * one, and then the tables hold what BuildingRun produces from the polygons before it.
     * Otherwise the tables hold what BuildingRun produces from all of them, starting from empty
     * local tables; every global table is extended by its local one, the points issued for each
     * class grow by the corners of the accepted triangles of its polygons in order, and every index
     * of every face resolves in its class's global table to the point of its issued pair.
     */
    method ConvertBuilding(polygons: seq<PolygonJob>) returns (r: Result<()>)
      requires Settled() && IsSqrt(sqrt)
      requires forall k | 0 <= k < |polygons| :: polygons[k].cl in vertices
      modifies this
      ensures Valid()
      ensures vertices.Keys == old(vertices).Keys
      ensures Extends(old(faceOutput), faceOutput) && Extends(old(issued), issued)
      ensures var d := Decisions(validation, sqrt, triangulate, polygons);
        r.Ok? <==> forall k | 0 <= k < |polygons| :: d[k].Ok?
      ensures var d, st0 := Decisions(validation, sqrt, triangulate, polygons),
                            BuildState(map c | c in old(vertices) :: [], old(faceOutput), old(issued));
        r.Err? ==> exists k | 0 <= k < |polygons| ::
          && d[k] == Err(r.error) && (forall j | 0 <= j < k :: d[j].Ok?)
          && RunReaches(old(vertices), st0, polygons[..k], d[..k], BuildState(localVertices, faceOutput, issued))
      ensures var d, st0 := Decisions(validation, sqrt, triangulate, polygons),
                            BuildState(map c | c in old(vertices) :: [], old(faceOutput), old(issued));
        r.Ok? ==> RunReaches(old(vertices), st0, polygons, d, BuildState(localVertices, faceOutput, issued))
      ensures r.Err? ==> vertices == old(vertices)
      ensures r.Ok? ==> Settled() && forall c | c in vertices :: vertices[c] == old(vertices)[c] + localVertices[c]
      ensures r.Ok? ==> forall c | c in faceOutput :: c in issued && c in vertices && FacesResolve(faceOutput[c], issued[c], vertices[c])
      ensures r.Ok? ==> forall c | c in issued ::
                          && c in old(issued)
                          && PointsOf(issued[c]) == PointsOf(old(issued)[c]) + ClassCorners(polygons, Decisions(validation, sqrt, triangulate, polygons), c)
    {
      ghost var d := Decisions(validation, sqrt, triangulate, polygons);
      ghost var st0 := BuildState(map c | c in vertices :: [], faceOutput, issued);
      ghost var v0 := vertices;
      StartBuilding();
      var result, k := ConvertPolygons(polygons, d);
      NoneFailedMeans(d, k);
      if result.Err? {
        return result;
      }
      WholePrefix(polygons);
      WholePrefix(d);
      forall c | c in issued
        ensures c in old(issued) && PointsOf(issued[c]) == PointsOf(old(issued)[c]) + ClassCorners(polygons, d, c)
      {
        BuildingRunCorners(v0, st0, polygons, d, c);
      }
      MergeLocal();
      SettledFacesResolve(issued, vertices, faceOutput);
      return Ok(());
    }

    /**
     * The calls of poly_to_obj for the polygons of one building, in order, stopping at the first
     * that raises: k polygons are converted without error, and the tables hold what BuildingRun
     * produces from them; on an error, polygon k's decision is that error.
     */
    method ConvertPolygons(polygons: seq<PolygonJob>, ghost d: seq<Decision>) returns (r: Result<()>, ghost k: nat)
      requires Valid() && IsSqrt(sqrt) && d == Decisions(validation, sqrt, triangulate, polygons)
      requires forall j | 0 <= j < |polygons| :: polygons[j].cl in vertices
      modifies this
      ensures Valid() && vertices == old(vertices)
      ensures Extends(old(faceOutput), faceOutput) && Extends(old(issued), issued)
      ensures k <= |polygons| && NoneFailed(d[..k])
      ensures RunReaches(vertices, BuildState(old(localVertices), old(faceOutput), old(issued)), polygons[..k], d[..k],
                         BuildState(localVertices, faceOutput, issued))
      ensures r.Err? ==> k < |polygons| && d[k] == Err(r.error)
      ensures r.Ok? ==> k == |polygons|
    {
      ghost var st0 := BuildState(localVertices, faceOutput, issued);
      assert polygons[..0] == [] && d[..0] == [];
      k := 0;
      var i := 0;
      while i < |polygons|
        invariant 0 <= i <= |polygons| && k == i && Valid() && vertices == old(vertices)
        invariant Extends(st0.faces, faceOutput) && Extends(st0.issued, issued)
        invariant NoneFailed(d[..i])
        invariant RunReaches(vertices, st0, polygons[..i], d[..i], BuildState(localVertices, faceOutput, issued))
      {
        var done := ConvertNext(polygons, i, d, st0);
        if done.Err? {
          return Err(done.error), i;
        }
        i := i + 1;
        k := i;
      }
      return Ok(()), k;
    }

    /**
     * The call of poly_to_obj for polygon i after the i before it were converted from st0 without
     * error: it raises with decision i's error and changes nothing, or the first i + 1 polygons
     * are converted from st0 without error.
     */
    method ConvertNext(polygons: seq<PolygonJob>, i: nat, ghost d: seq<Decision>, ghost st0: BuildState)
      returns (done: Result<bool>)
      requires Valid() && IsSqrt(sqrt) && i < |polygons| && d == Decisions(validation, sqrt, triangulate, polygons)
      requires forall j | 0 <= j < |polygons| :: polygons[j].cl in vertices
      requires NoneFailed(d[..i]) && RunReaches(vertices, st0, polygons[..i], d[..i], BuildState(localVertices, faceOutput, issued))
      modifies this
      requires Extends(st0.faces, faceOutput) && Extends(st0.issued, issued)
      ensures Valid() && vertices == old(vertices)
      ensures Extends(st0.faces, faceOutput) && Extends(st0.issued, issued)
      ensures done.Err? ==> d[i] == Err(done.error)
      ensures done.Err? ==> localVertices == old(localVertices) && faceOutput == old(faceOutput) && issued == old(issued)
      ensures done.Ok? ==>
        NoneFailed(d[..i + 1]) && RunReaches(vertices, st0, polygons[..i + 1], d[..i + 1], BuildState(localVertices, faceOutput, issued))
    {
      ghost var before := BuildState(localVertices, faceOutput, issued);
      done := ConvertPolygon(polygons, i, d);
      ExtendsTrans(st0.faces, before.faces, faceOutput);
      ExtendsTrans(st0.issued, before.issued, issued);
      if done.Ok? {
        ReachesStep(vertices, st0, polygons, d, i, before, BuildState(localVertices, faceOutput, issued));
      }
    }

    /**
     * One call of poly_to_obj inside a building, as one step of BuildingRun: it raises exactly when
     * the polygon's decision acc is an error, and otherwise the tables move to PolygonStep's result.
     */
    method ConvertPolygon(polygons: seq<PolygonJob>, i: nat, ghost d: seq<Decision>) returns (done: Result<bool>)
      requires Valid() && IsSqrt(sqrt) && i < |polygons| && polygons[i].cl in vertices
      requires d == Decisions(validation, sqrt, triangulate, polygons)
      modifies this
      ensures Valid() && vertices == old(vertices)
      ensures Extends(old(faceOutput), faceOutput) && Extends(old(issued), issued)
      ensures done.Err? <==> d[i].Err?
      ensures done.Err? ==> d[i] == Err(done.error)
      ensures done.Err? ==> localVertices == old(localVertices) && faceOutput == old(faceOutput) && issued == old(issued)
      ensures Fits(vertices, BuildState(old(localVertices), old(faceOutput), old(issued)))
      ensures PolygonStep(vertices, BuildState(old(localVertices), old(faceOutput), old(issued)), polygons[i], d[i])
              == if done.Err? then Err(done.error) else Ok(BuildState(localVertices, faceOutput, issued))
    {
      var job := polygons[i];
      ghost var before := BuildState(localVertices, faceOutput, issued);
      DecisionAt(validation, sqrt, triangulate, polygons, i);
      done := PolyToObj(job.exterior, job.interiors, job.cl, job.material);
      StepOfOutcome(vertices, before, BuildState(localVertices, faceOutput, issued), job, d[i], done);
    }
  }

  /** Appending element k of a list to a prefix-extended table extends it by one more element. */
  lemma AppendOne(table: seq<Point3>, local: seq<Point3>, k: nat)
    requires k < |local|
    ensures table + local[..k] + [local[k]] == table + local[..k + 1]
  {
    assert local[..k + 1] == local[..k] + [local[k]];
  }
}
