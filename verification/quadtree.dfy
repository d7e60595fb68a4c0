/** The first virtual quadtree of the renderer: no tree is stored, a patch
    is halved on alternating axes and a caller-supplied predicate on grid
    points is evaluated at the four corners of each half.

    The halves are exact: a patch of height `v` splits at `half = v / 2`
    into `[p, p + half]` and `[p + half, p + 2 * half]`. With inclusive
    corners the two halves share the middle row; when `v` is odd the top row
    of the patch is in neither half. */
module Quadtree {
  import opened Patches

  /** How many of a patch's four corners pass the test. */
  datatype TestResult = All | Some | None

  /** `split_v`: halves the height; the halves meet on the middle row. */
  function SplitV(x: Patch): (r: (Patch, Patch))
    ensures Within(r.0, x) && Within(r.1, x)
    ensures r.0.p == x.p && r.1.p == (x.p.0, x.p.1 + x.v.1 / 2)
    ensures r.0.v == r.1.v == (x.v.0, x.v.1 / 2)
    ensures x.v.1 >= 1 ==> r.0.v.0 + r.0.v.1 < x.v.0 + x.v.1 && r.1.v.0 + r.1.v.1 < x.v.0 + x.v.1
  {
    var half := x.v.1 / 2;
    (Patch(x.p, (x.v.0, half)), Patch((x.p.0, x.p.1 + half), (x.v.0, half)))
  }

  /** `split_h`: halves the width, the x-axis dual of `SplitV`. */
  function SplitH(x: Patch): (r: (Patch, Patch))
    ensures Within(r.0, x) && Within(r.1, x)
    ensures r.0.p == x.p && r.1.p == (x.p.0 + x.v.0 / 2, x.p.1)
    ensures r.0.v == r.1.v == (x.v.0 / 2, x.v.1)
    ensures x.v.0 >= 1 ==> r.0.v.0 + r.0.v.1 < x.v.0 + x.v.1 && r.1.v.0 + r.1.v.1 < x.v.0 + x.v.1
  {
    var half := x.v.0 / 2;
    (Patch(x.p, (half, x.v.1)), Patch((x.p.0 + half, x.p.1), (half, x.v.1)))
  }

  /** The two halves of `SplitV` share exactly the middle row, and with an
      even height they cover exactly the points of the patch. */
  lemma SplitVShape(x: Patch, q: Point)
    ensures Covers(SplitV(x).0, q) && Covers(SplitV(x).1, q) <==>
      Covers(x, q) && q.1 == x.p.1 + x.v.1 / 2
    ensures x.v.1 % 2 == 0 ==> (Covers(x, q) <==> Covers(SplitV(x).0, q) || Covers(SplitV(x).1, q))
  {
  }

  /** The dual of `SplitVShape`: the halves of `SplitH` share the middle column. */
  lemma SplitHShape(x: Patch, q: Point)
    ensures Covers(SplitH(x).0, q) && Covers(SplitH(x).1, q) <==>
      Covers(x, q) && q.0 == x.p.0 + x.v.0 / 2
    ensures x.v.0 % 2 == 0 ==> (Covers(x, q) <==> Covers(SplitH(x).0, q) || Covers(SplitH(x).1, q))
  {
  }

  /** The splits of the unit tests: an 8x8 patch splits into two 4-high
      (or 4-wide) halves, the second starting at 4. */
  lemma SplitExample()
    ensures SplitV(Patch((0, 0), (8, 8))) == (Patch((0, 0), (8, 4)), Patch((0, 4), (8, 4)))
    ensures SplitH(Patch((0, 0), (8, 8))) == (Patch((0, 0), (4, 8)), Patch((4, 0), (4, 8)))
  {
  }

  /** All four corners of `x` pass `f`. */
  predicate AllCornersPass(x: Patch, f: Point -> bool) {
    var (a, b, c, d) := GetCorners(x);
    f(a) && f(b) && f(c) && f(d)
  }

  /** At least one corner of `x` passes `f`. */
  predicate SomeCornerPasses(x: Patch, f: Point -> bool) {
    var (a, b, c, d) := GetCorners(x);
    f(a) || f(b) || f(c) || f(d)
  }

  /** `test_corners`: `All` exactly when every corner passes, `None` exactly
      when no corner passes, `Some` otherwise. */
  function TestCorners(x: Patch, f: Point -> bool): (r: TestResult)
    ensures r == All <==> AllCornersPass(x, f)
    ensures r == None <==> !SomeCornerPasses(x, f)
    ensures r == Some <==> SomeCornerPasses(x, f) && !AllCornersPass(x, f)
  {
    var (a, b, c, d) := GetCorners(x);
    var ra, rb, rc, rd := f(a), f(b), f(c), f(d);
    if ra && rb && rc && rd then All
    else if ra || rb || rc || rd then Some
    else None
  }

  /** The halves of a height split share two corners, so one half cannot
      pass at every corner while the other passes at none. */
  lemma NoAllBesideNoneV(x: Patch, f: Point -> bool)
    ensures TestCorners(SplitV(x).1, f) == All ==> TestCorners(SplitV(x).0, f) != None
    ensures TestCorners(SplitV(x).0, f) == All ==> TestCorners(SplitV(x).1, f) != None
  {
    var down, up := SplitV(x).0, SplitV(x).1;
    assert GetCorners(down).1 == GetCorners(up).0;
  }

  /** The same for a width split. */
  lemma NoAllBesideNoneH(x: Patch, f: Point -> bool)
    ensures TestCorners(SplitH(x).0, f) == All ==> TestCorners(SplitH(x).1, f) != None
    ensures TestCorners(SplitH(x).1, f) == All ==> TestCorners(SplitH(x).0, f) != None
  {
    var left, right := SplitH(x).0, SplitH(x).1;
    assert GetCorners(left).2 == GetCorners(right).0;
  }

  /** The results of a recursive call on a half `h` of `x` that passes at a
      corner stay inside `x` and pass at a corner. */
  lemma KeptHalf(r: seq<Patch>, h: Patch, x: Patch, f: Point -> bool)
    requires Within(h, x) && SomeCornerPasses(h, f)
    requires forall a :: a in r ==> Within(a, h)
    requires forall a :: a in r ==> a == h || SomeCornerPasses(a, f)
    ensures forall a :: a in r ==> Within(a, x) && SomeCornerPasses(a, f)
  {
    forall a | a in r ensures Within(a, x) {
      assert Within(a, h);
    }
  }

  /** Pushing a half `e` of `x` that passes at a corner onto the kept
      results of the other half `h` keeps them inside `x` and passing. */
  lemma KeptPush(r: seq<Patch>, h: Patch, e: Patch, x: Patch, f: Point -> bool)
    requires Within(h, x) && SomeCornerPasses(h, f)
    requires Within(e, x) && SomeCornerPasses(e, f)
    requires forall a :: a in r ==> Within(a, h)
    requires forall a :: a in r ==> a == h || SomeCornerPasses(a, f)
    ensures forall a :: a in AddElem(r, e) ==> Within(a, x) && SomeCornerPasses(a, f)
  {
    KeptHalf(r, h, x, f);
    assert AddElem(r, e) == r + [e];
  }

  /** Appending the kept results of both halves of `x` keeps them inside
      `x` and passing. */
  lemma KeptUnion(r1: seq<Patch>, h1: Patch, r2: seq<Patch>, h2: Patch, x: Patch, f: Point -> bool)
    requires Within(h1, x) && SomeCornerPasses(h1, f)
    requires Within(h2, x) && SomeCornerPasses(h2, f)
    requires forall a :: a in r1 ==> Within(a, h1)
    requires forall a :: a in r1 ==> a == h1 || SomeCornerPasses(a, f)
    requires forall a :: a in r2 ==> Within(a, h2)
    requires forall a :: a in r2 ==> a == h2 || SomeCornerPasses(a, f)
    ensures forall a :: a in Union(r1, r2) ==> Within(a, x) && SomeCornerPasses(a, f)
  {
    KeptHalf(r1, h1, x, f);
    KeptHalf(r2, h2, x, f);
    assert Union(r1, r2) == r1 + r2;
  }

  /** `rec_h`: splits the height, tests the corners of both halves, and
      continues on the width of the halves that pass only in part. Every
      result lies inside `x`, and every result other than `x` itself passes
      the test at one of its corners at least. */
  function RecH(bc: nat, x: Patch, f: Point -> bool): (r: seq<Patch>)
    ensures forall a :: a in r ==> Within(a, x)
    ensures forall a :: a in r ==> a == x || SomeCornerPasses(a, f)
    decreases x.v.0 + x.v.1
  {
    if x.v.1 <= bc then [x]
    else
      var down, up := SplitV(x).0, SplitV(x).1;
      match (TestCorners(up, f), TestCorners(down, f))
      case (All, All) => [x]
      case (All, Some) =>
        var r1 := RecV(bc, down, f);
        KeptPush(r1, down, up, x, f);
        AddElem(r1, up)
      case (Some, All) =>
        var r1 := RecV(bc, up, f);
        KeptPush(r1, up, down, x, f);
        AddElem(r1, down)
      case (Some, None) =>
        var r1 := RecV(bc, up, f);
        KeptHalf(r1, up, x, f);
        r1
      case (None, Some) =>
        var r1 := RecV(bc, down, f);
        KeptHalf(r1, down, x, f);
        r1
      case (Some, Some) =>
        var r1, r2 := RecV(bc, down, f), RecV(bc, up, f);
        KeptUnion(r1, down, r2, up, x, f);
        Union(r1, r2)
      case _ => []
  }

  /** `rec_v`: splits the width and continues on the height; same table. */
  function RecV(bc: nat, x: Patch, f: Point -> bool): (r: seq<Patch>)
    ensures forall a :: a in r ==> Within(a, x)
    ensures forall a :: a in r ==> a == x || SomeCornerPasses(a, f)
    decreases x.v.0 + x.v.1
  {
    if x.v.0 <= bc then [x]
    else
      var left, right := SplitH(x).0, SplitH(x).1;
      match (TestCorners(left, f), TestCorners(right, f))
      case (All, All) => [x]
      case (All, Some) =>
        var r1 := RecH(bc, right, f);
        KeptPush(r1, right, left, x, f);
        AddElem(r1, left)
      case (Some, All) =>
        var r1 := RecH(bc, left, f);
        KeptPush(r1, left, right, x, f);
        AddElem(r1, right)
      case (Some, None) =>
        var r1 := RecH(bc, left, f);
        KeptHalf(r1, left, x, f);
        r1
      case (None, Some) =>
        var r1 := RecH(bc, right, f);
        KeptHalf(r1, right, x, f);
        r1
      case (Some, Some) =>
        var r1, r2 := RecH(bc, left, f), RecH(bc, right, f);
        KeptUnion(r1, left, r2, right, x, f);
        Union(r1, r2)
      case _ => []
  }

  /** `test`: the entry point starts with a height split. */
  function Test(bc: nat, x: Patch, f: Point -> bool): (r: seq<Patch>)
    ensures forall a :: a in r ==> Within(a, x)
    ensures forall a :: a in r ==> a == x || SomeCornerPasses(a, f)
    ensures bc >= 1 && Pow2(x.v.0) && Pow2(x.v.1) ==>
      forall q :: IsCorner(q, x) && f(q) ==> Reaches(r, q)
    ensures bc >= 1 && Pow2(x.v.0) && Pow2(x.v.1) && SomeCornerPasses(x, f) ==> r != []
  {
    CornersKept(bc, x, f);
    RecH(bc, x, f)
  }

  /** A predicate that fails at every point of `x` leaves nothing once a
      split happens. */
  lemma NonePass(bc: nat, x: Patch, f: Point -> bool)
    requires forall q :: Covers(x, q) ==> !f(q)
    ensures Test(bc, x, f) == if x.v.1 <= bc then [x] else []
  {
    if x.v.1 > bc {
      var (down, up) := SplitV(x);
      assert TestCorners(down, f) == None by {
        var (a, b, c, d) := GetCorners(down);
        WithinCovers(down, x, a);
        WithinCovers(down, x, b);
        WithinCovers(down, x, c);
        WithinCovers(down, x, d);
      }
    }
  }

  /** A predicate that passes at every point of `x` returns the patch whole. */
  lemma AllPass(bc: nat, x: Patch, f: Point -> bool)
    requires forall q :: Covers(x, q) ==> f(q)
    ensures Test(bc, x, f) == [x]
  {
    if x.v.1 > bc {
      var (down, up) := SplitV(x);
      assert TestCorners(down, f) == All by {
        var (a, b, c, d) := GetCorners(down);
        WithinCovers(down, x, a);
        WithinCovers(down, x, b);
        WithinCovers(down, x, c);
        WithinCovers(down, x, d);
      }
      assert TestCorners(up, f) == All by {
        var (a, b, c, d) := GetCorners(up);
        WithinCovers(up, x, a);
        WithinCovers(up, x, b);
        WithinCovers(up, x, c);
        WithinCovers(up, x, d);
      }
    }
  }

  /** `n` is a power of two: halving it stays even all the way down to 1. */
  predicate Pow2(n: nat) {
    n == 1 || (n >= 2 && n % 2 == 0 && Pow2(n / 2))
  }

  lemma Pow2Half(n: nat)
    requires Pow2(n) && n >= 2
    ensures n % 2 == 0 && Pow2(n / 2)
  {
  }

  /** `q` is one of the four corners of `x`. */
  predicate IsCorner(q: Point, x: Patch) {
    var (a, b, c, d) := GetCorners(x);
    q == a || q == b || q == c || q == d
  }

  /** Some patch of `r` covers `q`. */
  ghost predicate Reaches(r: seq<Patch>, q: Point) {
    exists a :: a in r && Covers(a, q)
  }

  /** A corner is a point of the patch. */
  lemma CornerCovered(q: Point, x: Patch)
    requires IsCorner(q, x)
    ensures Covers(x, q)
  {
  }

  /** A passing corner makes the patch pass at some corner, and is covered. */
  lemma CornerPasses(q: Point, x: Patch, f: Point -> bool)
    requires IsCorner(q, x) && f(q)
    ensures SomeCornerPasses(x, f) && TestCorners(x, f) != None && Covers(x, q)
  {
  }

  /** With an even height every corner of `x` is a corner of one of its halves:
      the lower half keeps the two lower corners, the upper half the two
      upper ones. */
  lemma SplitVCorners(x: Patch, q: Point)
    requires x.v.1 % 2 == 0 && IsCorner(q, x)
    ensures IsCorner(q, SplitV(x).0) || IsCorner(q, SplitV(x).1)
  {
    var down, up := SplitV(x).0, SplitV(x).1;
    var (a, b, c, d) := GetCorners(x);
    assert GetCorners(down).0 == a && GetCorners(down).2 == c;
    assert GetCorners(up).1 == b && GetCorners(up).3 == d;
  }

  /** The dual of `SplitVCorners` for an even width. */
  lemma SplitHCorners(x: Patch, q: Point)
    requires x.v.0 % 2 == 0 && IsCorner(q, x)
    ensures IsCorner(q, SplitH(x).0) || IsCorner(q, SplitH(x).1)
  {
    var left, right := SplitH(x).0, SplitH(x).1;
    var (a, b, c, d) := GetCorners(x);
    assert GetCorners(left).0 == a && GetCorners(left).1 == b;
    assert GetCorners(right).2 == c && GetCorners(right).3 == d;
  }

  lemma ReachesPush(r: seq<Patch>, e: Patch, q: Point)
    requires Reaches(r, q) || Covers(e, q)
    ensures Reaches(AddElem(r, e), q)
  {
    if Covers(e, q) {
      assert AddElem(r, e)[|r|] == e;
    } else {
      var a :| a in r && Covers(a, q);
      var k :| 0 <= k < |r| && r[k] == a;
      assert AddElem(r, e)[k] == a;
    }
  }

  lemma ReachesUnion(r1: seq<Patch>, r2: seq<Patch>, q: Point)
    requires Reaches(r1, q) || Reaches(r2, q)
    ensures Reaches(Union(r1, r2), q)
  {
    if Reaches(r1, q) {
      var a :| a in r1 && Covers(a, q);
      var k :| 0 <= k < |r1| && r1[k] == a;
      assert Union(r1, r2)[k] == a;
    } else {
      var a :| a in r2 && Covers(a, q);
      var k :| 0 <= k < |r2| && r2[k] == a;
      assert Union(r1, r2)[|r1| + k] == a;
    }
  }

  /** One height split keeps a point `q` of a half `h` that passes at some
      corner: whole when `h` passes at all its corners, otherwise through the
      patches the width split of `h` returns. */
  lemma HalfReachesH(bc: nat, x: Patch, f: Point -> bool, q: Point, h: Patch)
    requires x.v.1 > bc && (h == SplitV(x).0 || h == SplitV(x).1)
    requires Covers(x, q) && Covers(h, q) && TestCorners(h, f) != None
    requires TestCorners(h, f) == Some ==> Reaches(RecV(bc, h, f), q)
    ensures Reaches(RecH(bc, x, f), q)
  {
    var down, up := SplitV(x).0, SplitV(x).1;
    NoAllBesideNoneV(x, f);
    var tu, td := TestCorners(up, f), TestCorners(down, f);
    if tu == All && td == All {
      assert x in RecH(bc, x, f);
    } else if tu == All && td == Some {
      ReachesPush(RecV(bc, down, f), up, q);
    } else if tu == Some && td == All {
      ReachesPush(RecV(bc, up, f), down, q);
    } else if tu == Some && td == Some {
      ReachesUnion(RecV(bc, down, f), RecV(bc, up, f), q);
    }
  }

  /** The dual of `HalfReachesH` for a width split. */
  lemma HalfReachesV(bc: nat, x: Patch, f: Point -> bool, q: Point, h: Patch)
    requires x.v.0 > bc && (h == SplitH(x).0 || h == SplitH(x).1)
    requires Covers(x, q) && Covers(h, q) && TestCorners(h, f) != None
    requires TestCorners(h, f) == Some ==> Reaches(RecH(bc, h, f), q)
    ensures Reaches(RecV(bc, x, f), q)
  {
    var left, right := SplitH(x).0, SplitH(x).1;
    NoAllBesideNoneH(x, f);
    var tl, tr := TestCorners(left, f), TestCorners(right, f);
    if tl == All && tr == All {
      assert x in RecV(bc, x, f);
    } else if tl == All && tr == Some {
      ReachesPush(RecH(bc, right, f), left, q);
    } else if tl == Some && tr == All {
      ReachesPush(RecH(bc, left, f), right, q);
    } else if tl == Some && tr == Some {
      ReachesUnion(RecH(bc, left, f), RecH(bc, right, f), q);
    }
  }

  /** A patch within the precision comes back whole, so it keeps its points. */
  lemma WholeReaches(bc: nat, x: Patch, f: Point -> bool, q: Point)
    requires Covers(x, q)
    ensures x.v.1 <= bc ==> Reaches(RecH(bc, x, f), q)
    ensures x.v.0 <= bc ==> Reaches(RecV(bc, x, f), q)
  {
    if x.v.1 <= bc {
      assert x in RecH(bc, x, f);
    }
    if x.v.0 <= bc {
      assert x in RecV(bc, x, f);
    }
  }

  /** Completeness: when every split is on an even extent (both extents are
      powers of two), each passing corner of `x` is covered by a patch the
      height split returns. */
  lemma {:induction false} CornerKeptH(bc: nat, x: Patch, f: Point -> bool, q: Point)
    requires bc >= 1 && Pow2(x.v.0) && Pow2(x.v.1)
    requires IsCorner(q, x) && f(q)
    ensures Reaches(RecH(bc, x, f), q)
    decreases x.v.0 + x.v.1, 1
  {
    CornerCovered(q, x);
    if x.v.1 <= bc {
      WholeReaches(bc, x, f, q);
    } else {
      Pow2Half(x.v.1);
      SplitVCorners(x, q);
      var h := SplitV(x).0;
      if !IsCorner(q, h) {
        h := SplitV(x).1;
      }
      CornerPasses(q, h, f);
      if TestCorners(h, f) == Some {
        CornerKeptV(bc, h, f, q);
      }
      HalfReachesH(bc, x, f, q, h);
    }
  }

  /** The width-split counterpart of `CornerKeptH`. */
  lemma {:induction false} CornerKeptV(bc: nat, x: Patch, f: Point -> bool, q: Point)
    requires bc >= 1 && Pow2(x.v.0) && Pow2(x.v.1)
    requires IsCorner(q, x) && f(q)
    ensures Reaches(RecV(bc, x, f), q)
    decreases x.v.0 + x.v.1, 1
  {
    CornerCovered(q, x);
    if x.v.0 <= bc {
      WholeReaches(bc, x, f, q);
    } else {
      Pow2Half(x.v.0);
      SplitHCorners(x, q);
      var h := SplitH(x).0;
      if !IsCorner(q, h) {
        h := SplitH(x).1;
      }
      CornerPasses(q, h, f);
      if TestCorners(h, f) == Some {
        CornerKeptH(bc, h, f, q);
      }
      HalfReachesV(bc, x, f, q, h);
    }
  }

  /** Every passing corner of a patch with power-of-two extents is kept by
      the search, so a patch passing at some corner gives at least one leaf. */
  lemma CornersKept(bc: nat, x: Patch, f: Point -> bool)
    ensures bc >= 1 && Pow2(x.v.0) && Pow2(x.v.1) ==>
      forall q :: IsCorner(q, x) && f(q) ==> Reaches(RecH(bc, x, f), q)
    ensures bc >= 1 && Pow2(x.v.0) && Pow2(x.v.1) && SomeCornerPasses(x, f) ==> RecH(bc, x, f) != []
  {
    if bc >= 1 && Pow2(x.v.0) && Pow2(x.v.1) {
      forall q | IsCorner(q, x) && f(q) ensures Reaches(RecH(bc, x, f), q) {
        CornerKeptH(bc, x, f, q);
      }
      if SomeCornerPasses(x, f) {
        var (a, b, c, d) := GetCorners(x);
        var q := if f(a) then a else if f(b) then b else if f(c) then c else d;
        CornerKeptH(bc, x, f, q);
      }
    }
  }

  /** On an odd extent the corners on the dropped top row are lost: the
      patch of height 3 passes at its top corners, yet at precision 1 the
      search returns nothing, since neither half reaches row 3. */
  predicate OnRowThree(q: Point) { q.1 == 3 }

  lemma OddExtentLosesCorner(x: Patch)
    requires x == Patch((0, 0), (0, 3))
    ensures IsCorner((0, 3), x) && OnRowThree((0, 3))
    ensures Test(1, x, OnRowThree) == []
  {
    assert SplitV(x) == (Patch((0, 0), (0, 1)), Patch((0, 1), (0, 1)));
    assert TestCorners(Patch((0, 0), (0, 1)), OnRowThree) == None;
    assert TestCorners(Patch((0, 1), (0, 1)), OnRowThree) == None;
  }

  /** The predicates of the corner unit test. */
  predicate Everywhere(q: Point) { true }
  predicate Nowhere(q: Point) { false }
  predicate AboveZero(q: Point) { q.1 > 0 }

  /** The corner unit test on the patch from `(10, 0)` with extent `(22, 8)`. */
  lemma TestCornersExample()
    ensures TestCorners(Patch((10, 0), (22, 8)), Everywhere) == All
    ensures TestCorners(Patch((10, 0), (22, 8)), AboveZero) == Some
    ensures TestCorners(Patch((10, 0), (22, 8)), Nowhere) == None
  {
  }

  /** The search unit test's predicate: the upper rows of the 8x8 patch. */
  predicate AboveFour(q: Point) { q.1 > 4 }

  /** The search unit test: nothing, and the whole patch. */
  lemma SearchExamples(x: Patch)
    requires x == Patch((0, 0), (8, 8))
    ensures |Test(4, x, Nowhere)| == 0
    ensures |Test(4, x, Everywhere)| == 1
  {
    NonePass(4, x, Nowhere);
    AllPass(4, x, Everywhere);
  }

  /** The search unit test's third case: at precision 2 the upper rows of
      the 8x8 patch come back as six patches. */
  lemma SearchAboveFourExample(x: Patch)
    requires x == Patch((0, 0), (8, 8))
    ensures |Test(2, x, AboveFour)| == 6
  {
    var down, up := Patch((0, 0), (8, 4)), Patch((0, 4), (8, 4));
    assert SplitV(x) == (down, up);
    assert TestCorners(up, AboveFour) == Some && TestCorners(down, AboveFour) == None;
    RecHUpOnly(2, x, AboveFour);
    UpperBand(up);
  }

  /** A height split whose upper half passes in part and lower half not at
      all continues on the upper half alone. */
  lemma RecHUpOnly(bc: nat, x: Patch, f: Point -> bool)
    requires x.v.1 > bc
    requires TestCorners(SplitV(x).1, f) == Some && TestCorners(SplitV(x).0, f) == None
    ensures RecH(bc, x, f) == RecV(bc, SplitV(x).1, f)
  {
  }

  /** The upper half of the root splits into two quarters of three patches each. */
  lemma UpperBand(x: Patch)
    requires x == Patch((0, 4), (8, 4))
    ensures |RecV(2, x, AboveFour)| == 6
  {
    var left, right := Patch((0, 4), (4, 4)), Patch((4, 4), (4, 4));
    assert SplitH(x) == (left, right);
    assert TestCorners(left, AboveFour) == Some && TestCorners(right, AboveFour) == Some;
    RecVBothSome(2, x, AboveFour);
    LeftQuarter();
    RightQuarter();
  }

  /** A width split whose halves both pass only in part continues on both. */
  lemma RecVBothSome(bc: nat, x: Patch, f: Point -> bool)
    requires x.v.0 > bc
    requires TestCorners(SplitH(x).0, f) == Some && TestCorners(SplitH(x).1, f) == Some
    ensures RecV(bc, x, f) == RecH(bc, SplitH(x).0, f) + RecH(bc, SplitH(x).1, f)
  {
  }

  /** The upper-left quarter keeps its top half whole and splits its bottom
      half, which straddles the row `y = 4`, into two leaves. */
  lemma LeftQuarter()
    ensures |RecH(2, Patch((0, 4), (4, 4)), AboveFour)| == 3
  {
    LeftStrip();
  }

  /** The same for the upper-right quarter. */
  lemma RightQuarter()
    ensures |RecH(2, Patch((4, 4), (4, 4)), AboveFour)| == 3
  {
    RightStrip();
  }

  lemma LeftStrip()
    ensures |RecV(2, Patch((0, 4), (4, 2)), AboveFour)| == 2
  {
  }

  lemma RightStrip()
    ensures |RecV(2, Patch((4, 4), (4, 2)), AboveFour)| == 2
  {
  }
}
