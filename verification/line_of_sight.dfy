/** The line-of-sight culler: which patches of the height map can the
    camera see?

    Every corner of a patch is lifted to a 3D point (its height read from
    the map), projected with the camera matrix, and classified on each
    screen axis. A patch whose four corners all lie on the same wrong side
    of the view on one axis, or all behind the camera, is discarded; every
    other patch is refined down to the precision of the search. The result
    is memoised on the matrix and the precision.

    `f32` arithmetic is idealised as `real`. */
module LineOfSight {
  import opened Patches
  import opened HeightMaps
  import LosQuadtree

  /** Where a projected point lies on one screen axis. */
  datatype RelPos = Less | In | Greather | Back

  /** A homogeneous 4-vector. */
  datatype Vec4 = Vec4(x: real, y: real, z: real, w: real)

  /** A 4x4 matrix stored by columns, like `cgmath::Matrix4`. */
  datatype Mat4 = Mat4(c0: Vec4, c1: Vec4, c2: Vec4, c3: Vec4)

  /** `Matrix4::zero()`. */
  const Zero: Mat4 := Mat4(Vec4(0.0, 0.0, 0.0, 0.0), Vec4(0.0, 0.0, 0.0, 0.0),
                           Vec4(0.0, 0.0, 0.0, 0.0), Vec4(0.0, 0.0, 0.0, 0.0))

  /** Matrix times column vector: the columns weighted by the coordinates. */
  function Mul(m: Mat4, v: Vec4): Vec4 {
    Vec4(m.c0.x * v.x + m.c1.x * v.y + m.c2.x * v.z + m.c3.x * v.w,
         m.c0.y * v.x + m.c1.y * v.y + m.c2.y * v.z + m.c3.y * v.w,
         m.c0.z * v.x + m.c1.z * v.y + m.c2.z * v.z + m.c3.z * v.w,
         m.c0.w * v.x + m.c1.w * v.y + m.c2.w * v.z + m.c3.w * v.w)
  }

  /** The point is in front of the camera and inside the depth range once
      divided by `w`. */
  predicate InDepth(pos: Vec4) {
    pos.w > 0.0 && 0.0 < pos.z / pos.w <= 1.0
  }

  /** The guard chain of `check_voxel` on a projected point: behind the
      camera (`w <= 0`) first, then outside the depth range, then each
      screen axis on its own against `[-1, 1]`. `Back` only ever comes as a
      pair, and an axis is `Less`, `Greather` or `In` exactly when its
      coordinate lies below, above or inside `[-1, 1]`. */
  function Classify(pos: Vec4): (r: (RelPos, RelPos))
    ensures r.0 == Back <==> r.1 == Back
    ensures r.0 == Back <==> !InDepth(pos)
    ensures InDepth(pos) ==> (r.0 == Less <==> pos.x / pos.w < -1.0) && (r.0 == Greather <==> pos.x / pos.w > 1.0)
    ensures InDepth(pos) ==> (r.1 == Less <==> pos.y / pos.w < -1.0) && (r.1 == Greather <==> pos.y / pos.w > 1.0)
  {
    if pos.w <= 0.0 then (Back, Back)
    else
      var a, b, c := pos.x / pos.w, pos.y / pos.w, pos.z / pos.w;
      if c <= 0.0 then (Back, Back)
      else if c > 1.0 then (Back, Back)
      else
        var i := if a > 1.0 then Greather else if a < -1.0 then Less else In;
        var j := if b > 1.0 then Greather else if b < -1.0 then Less else In;
        (i, j)
  }

  /** `check_voxel`: lifts grid point `q` to `(x, height, z, 1)`, projects it
      and classifies it. */
  function CheckVoxel(q: Point, pvm: Mat4, m: HeightMap): (r: (RelPos, RelPos))
    requires Valid(m) && InBounds(m, q.0, q.1)
    ensures r.0 == Back <==> r.1 == Back
  {
    var h := CoordsHeight(m, q.0, q.1);
    Classify(Mul(pvm, Vec4(q.0 as real, h as real, q.1 as real, 1.0)))
  }

  /** Every entry has first component `p`. */
  predicate AllFirst(res: seq<(RelPos, RelPos)>, p: RelPos) {
    forall k :: 0 <= k < |res| ==> res[k].0 == p
  }

  /** Every entry has second component `p`. */
  predicate AllSecond(res: seq<(RelPos, RelPos)>, p: RelPos) {
    forall k :: 0 <= k < |res| ==> res[k].1 == p
  }

  /** The verdict closure of `update_view` on the classifications of the
      four corners: six `Discard` rules tried in order, `Refine` otherwise.
      It never answers `Take`. */
  function Rate(res: seq<(RelPos, RelPos)>): (r: LosQuadtree.Verdict)
    ensures r != LosQuadtree.Take
    ensures r == LosQuadtree.Discard <==>
      || AllFirst(res, Back) || AllSecond(res, Back)
      || AllFirst(res, Less) || AllSecond(res, Less)
      || AllFirst(res, Greather) || AllSecond(res, Greather)
  {
    if AllFirst(res, Back) then LosQuadtree.Discard
    else if AllSecond(res, Back) then LosQuadtree.Discard
    else if AllFirst(res, Less) then LosQuadtree.Discard
    else if AllSecond(res, Less) then LosQuadtree.Discard
    else if AllFirst(res, Greather) then LosQuadtree.Discard
    else if AllSecond(res, Greather) then LosQuadtree.Discard
    else LosQuadtree.Refine
  }

  /** A patch with one corner in view on both axes is never discarded. */
  lemma VisibleCornerKeeps(res: seq<(RelPos, RelPos)>, k: nat)
    requires k < |res| && res[k] == (In, In)
    ensures Rate(res) == LosQuadtree.Refine
  {
    assert res[k].0 != Back && res[k].1 != Back;
  }

  /** Corners that straddle the view on one axis, one `Less` and one
      `Greather`, and are all in depth do not discard the patch. */
  lemma StraddleKeeps(res: seq<(RelPos, RelPos)>, k: nat, l: nat)
    requires k < |res| && l < |res| && res[k].0 == Less && res[l].0 == Greather
    requires res[k].1 == res[l].1 == In
    ensures Rate(res) == LosQuadtree.Refine
  {
  }

  /** The four corner classifications of patch `a`, in corner order. */
  function CornerClasses(a: Patch, pvm: Mat4, m: HeightMap): (res: seq<(RelPos, RelPos)>)
    requires Valid(m) && InBounds(m, a.p.0 + a.v.0, a.p.1 + a.v.1)
    ensures |res| == 4
    ensures forall k :: 0 <= k < 4 ==> (res[k].0 == Back <==> res[k].1 == Back)
  {
    var (c0, c1, c2, c3) := GetCorners(a);
    [CheckVoxel(c0, pvm, m), CheckVoxel(c1, pvm, m), CheckVoxel(c2, pvm, m), CheckVoxel(c3, pvm, m)]
  }

  /** The root patch of a `w x h` map: inclusive corners `(0, 0)` and `(w - 1, h - 1)`. */
  function Root(m: HeightMap): (x: Patch)
    requires m.width >= 1 && m.height >= 1
    ensures forall q: Point :: Covers(x, q) <==> InBounds(m, q.0, q.1)
  {
    Patch((0, 0), (m.width - 1, m.height - 1))
  }

  /** The verdict on a patch inside the map. */
  function RatePatch(a: Patch, pvm: Mat4, m: HeightMap): (r: LosQuadtree.Verdict)
    requires Valid(m) && m.width >= 1 && m.height >= 1 && Within(a, Root(m))
    ensures r != LosQuadtree.Take
  {
    Rate(CornerClasses(a, pvm, m))
  }

  /** The verdict closure `update_view` hands to the search: the rating of
      a patch's four corners. It answers on every patch inside the map and
      never says `Take` there. */
  function Oracle(m: HeightMap, pvm: Mat4): (f: Patch --> LosQuadtree.Verdict)
    ensures Valid(m) && m.width >= 1 && m.height >= 1 ==>
      LosQuadtree.Answers(f, Root(m)) && LosQuadtree.TakeFree(f, Root(m))
  {
    (a: Patch) requires Valid(m) && m.width >= 1 && m.height >= 1 && Within(a, Root(m)) => RatePatch(a, pvm, m)
  }

  /** The culler's state. */
  datatype Los = Los(patches: seq<Patch>, heightMap: HeightMap, lastMatrix: Mat4, lastPrecision: nat)

  /** `Los::new`: no patches, the zero matrix and precision 0. */
  function New(m: HeightMap): (r: Los)
    ensures r.patches == [] && r.heightMap == m
    ensures r.lastMatrix == Zero && r.lastPrecision == 0
  {
    Los([], m, Zero, 0)
  }

  /** `get_patches`. */
  function GetPatches(los: Los): seq<Patch> {
    los.patches
  }

  /** `dimensions`: the dimensions of the stored map, which are those of its
      pixel columns. */
  function Dimensions(los: Los): (r: (nat, nat))
    ensures Valid(los.heightMap) ==>
      r.0 == |los.heightMap.red| && forall x :: 0 <= x < r.0 ==> |los.heightMap.red[x]| == r.1
  {
    (los.heightMap.width, los.heightMap.height)
  }

  /** `update_view` may be called: either it is a repeat of the last call,
      or the map is not empty (`size - 1` is a `u32` subtraction) and the
      precision is at least 1. */
  ghost predicate UpdateCallable(los: Los, precision: nat, pvm: Mat4) {
    && Valid(los.heightMap)
    && ((los.lastMatrix == pvm && los.lastPrecision == precision)
        || (los.heightMap.width >= 1 && los.heightMap.height >= 1 && precision >= 1))
  }

  /** `update_view`: a repeat of the last matrix and precision changes
      nothing. Otherwise the matrix and precision are stored and the patches
      replaced by the quadtree search over the whole map: they lie inside
      the map, no two overlap, each one is no larger than the precision on
      some axis, and none of them (unless the root itself) was discarded. */
  function UpdateView(los: Los, precision: nat, pvm: Mat4): (r: Los)
    requires UpdateCallable(los, precision, pvm)
    ensures los.lastMatrix == pvm && los.lastPrecision == precision ==> r == los
    ensures r.heightMap == los.heightMap && r.lastMatrix == pvm && r.lastPrecision == precision
    ensures !(los.lastMatrix == pvm && los.lastPrecision == precision) ==>
      r.patches == LosQuadtree.Test(precision, Root(los.heightMap), Oracle(los.heightMap, pvm))
    ensures !(los.lastMatrix == pvm && los.lastPrecision == precision) ==>
      var m := los.heightMap;
      && m.width >= 1 && m.height >= 1
      && (forall a :: a in r.patches ==> Within(a, Root(m)))
      && PairwiseDisjoint(r.patches)
      && (forall a :: a in r.patches ==> a.v.0 <= precision || a.v.1 <= precision)
      && (forall a :: a in r.patches ==> a == Root(m) || RatePatch(a, pvm, m) != LosQuadtree.Discard)
  {
    if los.lastMatrix == pvm && los.lastPrecision == precision then los
    else
      var m := los.heightMap;
      Los(LosQuadtree.Test(precision, Root(m), Oracle(m, pvm)), m, pvm, precision)
  }

  /** Repeating an update is a no-op. */
  lemma UpdateIdempotent(los: Los, precision: nat, pvm: Mat4)
    requires UpdateCallable(los, precision, pvm)
    ensures UpdateCallable(UpdateView(los, precision, pvm), precision, pvm)
    ensures UpdateView(UpdateView(los, precision, pvm), precision, pvm) == UpdateView(los, precision, pvm)
  {
  }

  /** Updating never changes the dimensions the culler reports. */
  lemma DimensionsStable(los: Los, precision: nat, pvm: Mat4)
    requires UpdateCallable(los, precision, pvm)
    ensures Dimensions(UpdateView(los, precision, pvm)) == Dimensions(los)
  {
  }

  /** The patches read back after an update: the stored ones on a repeat,
      otherwise the search over the whole map. */
  lemma PatchesAfterUpdate(los: Los, precision: nat, pvm: Mat4)
    requires UpdateCallable(los, precision, pvm)
    ensures los.lastMatrix == pvm && los.lastPrecision == precision ==>
      GetPatches(UpdateView(los, precision, pvm)) == GetPatches(los)
    ensures !(los.lastMatrix == pvm && los.lastPrecision == precision) ==>
      GetPatches(UpdateView(los, precision, pvm))
        == LosQuadtree.Test(precision, Root(los.heightMap), Oracle(los.heightMap, pvm))
  {
  }

  /** A new culler has no patches, and a first update with the zero matrix
      at precision 0 is a repeat, so it still has none. */
  lemma NewHasNoPatches(m: HeightMap)
    requires Valid(m)
    ensures GetPatches(New(m)) == []
    ensures GetPatches(UpdateView(New(m), 0, Zero)) == []
  {
  }
}
