/** The integer rectangle both quadtree variants subdivide.

    A patch has an origin `p` and an extent `v`; its corners are inclusive,
    so it covers the grid points from `p` to `p + v`, both ends included
    (the root patch of a `w x h` height map is `((0, 0), (w - 1, h - 1))`).
    Coordinates are `u32` in the source; here they are unbounded naturals,
    and every patch a quadtree returns lies inside its root, so no sum of
    coordinates exceeds the root's far corner. */
module Patches {

  /** A grid coordinate `(x, y)`. */
  type Point = (nat, nat)

  /** An extent `(width, height)`, measured corner to corner. */
  type Vector = (nat, nat)

  /** `Patch::new(p, v)` is this constructor. */
  datatype Patch = Patch(p: Point, v: Vector)

  /** The patch covers grid point `q` (inclusive corners). */
  predicate Covers(x: Patch, q: Point) {
    && x.p.0 <= q.0 <= x.p.0 + x.v.0
    && x.p.1 <= q.1 <= x.p.1 + x.v.1
  }

  /** Patch `a` lies inside patch `x`. */
  predicate Within(a: Patch, x: Patch) {
    && x.p.0 <= a.p.0 && a.p.0 + a.v.0 <= x.p.0 + x.v.0
    && x.p.1 <= a.p.1 && a.p.1 + a.v.1 <= x.p.1 + x.v.1
  }

  /** The two patches are separated along one axis. */
  predicate Disjoint(a: Patch, b: Patch) {
    || a.p.0 + a.v.0 < b.p.0 || b.p.0 + b.v.0 < a.p.0
    || a.p.1 + a.v.1 < b.p.1 || b.p.1 + b.v.1 < a.p.1
  }

  /** No two entries of `r` share a grid point. */
  predicate PairwiseDisjoint(r: seq<Patch>) {
    forall i, j :: 0 <= i < j < |r| ==> Disjoint(r[i], r[j])
  }

  /** `Within` means every covered point is covered by the outer patch. */
  lemma WithinCovers(a: Patch, x: Patch, q: Point)
    requires Within(a, x) && Covers(a, q)
    ensures Covers(x, q)
  {
  }

  /** Two patches are `Disjoint` exactly when no grid point is covered by both. */
  lemma DisjointIffNoCommonPoint(a: Patch, b: Patch)
    ensures Disjoint(a, b) <==> forall q: Point :: !(Covers(a, q) && Covers(b, q))
  {
    if !Disjoint(a, b) {
      var q := (if a.p.0 < b.p.0 then b.p.0 else a.p.0, if a.p.1 < b.p.1 then b.p.1 else a.p.1);
      assert Covers(a, q) && Covers(b, q);
    }
  }

  /** Patches inside two disjoint patches are disjoint. */
  lemma WithinDisjoint(a: Patch, d: Patch, b: Patch, u: Patch)
    requires Within(a, d) && Within(b, u) && Disjoint(d, u)
    ensures Disjoint(a, b)
  {
  }

  /** The four corners in the fixed order `(a, b, c, d)`:
      origin, origin + (0, height), origin + (width, 0), origin + extent. */
  function GetCorners(x: Patch): (r: (Point, Point, Point, Point))
    ensures Covers(x, r.0) && Covers(x, r.1) && Covers(x, r.2) && Covers(x, r.3)
    ensures forall q: Point :: Covers(x, q) <==> r.0.0 <= q.0 <= r.3.0 && r.0.1 <= q.1 <= r.3.1
    ensures r.1 == (r.0.0, r.3.1) && r.2 == (r.3.0, r.0.1)
  {
    (x.p,
     (x.p.0, x.p.1 + x.v.1),
     (x.p.0 + x.v.0, x.p.1),
     (x.p.0 + x.v.0, x.p.1 + x.v.1))
  }

  /** The corner order on the two patches the unit tests use. */
  lemma CornersExample()
    ensures GetCorners(Patch((10, 0), (22, 8))) == ((10, 0), (10, 8), (32, 0), (32, 8))
    ensures GetCorners(Patch((0, 0), (8, 8))) == ((0, 0), (0, 8), (8, 0), (8, 8))
  {
  }

  /** `add_elem`: push one patch at the end. */
  function AddElem(v: seq<Patch>, e: Patch): (r: seq<Patch>)
    ensures |r| == |v| + 1 && r[|v|] == e
    ensures forall i :: 0 <= i < |v| ==> r[i] == v[i]
  {
    v + [e]
  }

  /** `union`: append the second list to the first. */
  function Union(v1: seq<Patch>, v2: seq<Patch>): (r: seq<Patch>)
    ensures |r| == |v1| + |v2|
    ensures forall i :: 0 <= i < |v1| ==> r[i] == v1[i]
    ensures forall i :: 0 <= i < |v2| ==> r[|v1| + i] == v2[i]
  {
    v1 + v2
  }

  /** Concatenating two lists drawn from two disjoint patches keeps every pair disjoint. */
  lemma UnionDisjoint(r1: seq<Patch>, d: Patch, r2: seq<Patch>, u: Patch)
    requires PairwiseDisjoint(r1) && PairwiseDisjoint(r2)
    requires forall a :: a in r1 ==> Within(a, d)
    requires forall b :: b in r2 ==> Within(b, u)
    requires Disjoint(d, u)
    ensures PairwiseDisjoint(Union(r1, r2))
  {
    var r := Union(r1, r2);
    forall i, j | 0 <= i < j < |r| ensures Disjoint(r[i], r[j]) {
      if j < |r1| {
        assert r[i] == r1[i] && r[j] == r1[j];
      } else if i >= |r1| {
        assert r[i] == r2[i - |r1|] && r[j] == r2[j - |r1|];
      } else {
        assert r[i] == r1[i] && r[j] == r2[j - |r1|];
        WithinDisjoint(r[i], d, r[j], u);
      }
    }
  }

  /** Appending a patch disjoint from every entry keeps the list pairwise disjoint. */
  lemma AddElemDisjoint(r: seq<Patch>, u: Patch, e: Patch)
    requires PairwiseDisjoint(r)
    requires forall a :: a in r ==> Within(a, u)
    requires Disjoint(u, e)
    ensures PairwiseDisjoint(AddElem(r, e))
  {
    var r' := AddElem(r, e);
    forall i, j | 0 <= i < j < |r'| ensures Disjoint(r'[i], r'[j]) {
      if j < |r| {
        assert r'[i] == r[i] && r'[j] == r[j];
      } else {
        assert r'[i] == r[i] && r'[j] == e;
        assert Within(e, e);
        WithinDisjoint(r[i], u, e, e);
      }
    }
  }
}
