/** The virtual quadtree of the line-of-sight renderer: no tree is stored,
    a patch is split in halves on alternating axes and a caller-supplied
    oracle rates each half `Refine`, `Discard` or `Take`.

    The splits are off by one: a patch of height `v` splits at `half = v / 2`
    into a lower half of height `half - 1` and an upper half of height `half`
    starting `half` rows up. With inclusive corners the two halves never
    share a row; when `v` is even they cover the patch exactly, when `v` is
    odd the top row of the patch is in neither half. */
module LosQuadtree {
  import opened Patches
  import opened LosLeaves

  /** What the oracle says about a patch. */
  datatype Verdict = Refine | Discard | Take

  /** The oracle is defined at least on every patch inside `x`. */
  ghost predicate Answers(f: Patch --> Verdict, x: Patch) {
    forall a :: Within(a, x) ==> f.requires(a)
  }

  /** The oracle never answers `Take` inside `x`. */
  ghost predicate TakeFree(f: Patch --> Verdict, x: Patch) {
    forall a :: Within(a, x) ==> f.requires(a) && f(a) != Take
  }

  /** Both properties pass from a patch to any patch inside it. */
  lemma OracleWithin(f: Patch --> Verdict, x: Patch, y: Patch)
    requires Within(y, x)
    ensures Answers(f, x) ==> Answers(f, y)
    ensures TakeFree(f, x) ==> TakeFree(f, y)
  {
    forall a | Within(a, y) ensures Within(a, x) {
    }
  }

  /** `split_v`: halves the height. `half - 1` is a `u32` subtraction, so
      the height must be at least 2. */
  function SplitV(x: Patch): (r: (Patch, Patch))
    requires x.v.1 >= 2
    ensures Within(r.0, x) && Within(r.1, x) && Disjoint(r.0, r.1)
    ensures r.0.p == x.p && r.0.v.0 == x.v.0 && r.1.v.0 == x.v.0 && r.1.p.0 == x.p.0
    ensures r.1.p.1 == r.0.p.1 + r.0.v.1 + 1
    ensures r.0.v.1 + 1 + r.1.v.1 == x.v.1 - x.v.1 % 2
    ensures r.0.v.0 + r.0.v.1 < x.v.0 + x.v.1 && r.1.v.0 + r.1.v.1 < x.v.0 + x.v.1
  {
    var half := x.v.1 / 2;
    (Patch(x.p, (x.v.0, half - 1)), Patch((x.p.0, x.p.1 + half), (x.v.0, half)))
  }

  /** `split_h`: halves the width, the x-axis dual of `SplitV`. */
  function SplitH(x: Patch): (r: (Patch, Patch))
    requires x.v.0 >= 2
    ensures Within(r.0, x) && Within(r.1, x) && Disjoint(r.0, r.1)
    ensures r.0.p == x.p && r.0.v.1 == x.v.1 && r.1.v.1 == x.v.1 && r.1.p.1 == x.p.1
    ensures r.1.p.0 == r.0.p.0 + r.0.v.0 + 1
    ensures r.0.v.0 + 1 + r.1.v.0 == x.v.0 - x.v.0 % 2
    ensures r.0.v.0 + r.0.v.1 < x.v.0 + x.v.1 && r.1.v.0 + r.1.v.1 < x.v.0 + x.v.1
  {
    var half := x.v.0 / 2;
    (Patch(x.p, (half - 1, x.v.1)), Patch((x.p.0 + half, x.p.1), (half, x.v.1)))
  }

  /** The extents of the halves: the first half is one step shorter than
      the second, and the odd step of an odd extent is dropped. */
  lemma SplitExtents(x: Patch)
    ensures x.v.1 >= 2 ==> SplitV(x).0.v == (x.v.0, (x.v.1 - 2) / 2) && SplitV(x).1.v == (x.v.0, x.v.1 / 2)
    ensures x.v.0 >= 2 ==> SplitH(x).0.v == ((x.v.0 - 2) / 2, x.v.1) && SplitH(x).1.v == (x.v.0 / 2, x.v.1)
  {
  }

  /** With an even height the two halves of `SplitV` cover exactly the
      points of the patch. */
  lemma SplitVCoversEven(x: Patch, q: Point)
    requires x.v.1 >= 2 && x.v.1 % 2 == 0
    ensures Covers(x, q) <==> Covers(SplitV(x).0, q) || Covers(SplitV(x).1, q)
  {
  }

  /** With an odd height the top row of the patch is in neither half. */
  lemma SplitVDropsTopRowWhenOdd(x: Patch)
    requires x.v.1 >= 2 && x.v.1 % 2 == 1
    ensures Covers(x, (x.p.0, x.p.1 + x.v.1))
    ensures !Covers(SplitV(x).0, (x.p.0, x.p.1 + x.v.1))
    ensures !Covers(SplitV(x).1, (x.p.0, x.p.1 + x.v.1))
  {
  }

  /** With an even width the two halves of `SplitH` cover exactly the patch. */
  lemma SplitHCoversEven(x: Patch, q: Point)
    requires x.v.0 >= 2 && x.v.0 % 2 == 0
    ensures Covers(x, q) <==> Covers(SplitH(x).0, q) || Covers(SplitH(x).1, q)
  {
  }

  /** The splits of the unit tests: an 8x8 patch splits into 3 and 4 at 4. */
  lemma SplitExample()
    ensures SplitV(Patch((0, 0), (8, 8))) == (Patch((0, 0), (8, 3)), Patch((0, 4), (8, 4)))
    ensures SplitH(Patch((0, 0), (8, 8))) == (Patch((0, 0), (3, 8)), Patch((4, 0), (4, 8)))
  {
  }

  /** `rec_h`: splits the height, rates both halves, and continues on the
      width of the halves it keeps. Every result lies inside `x`, no two
      results overlap, nothing the oracle discarded is returned, and with an
      oracle that never says `Take` every result is a leaf. */
  function RecH(bc: nat, x: Patch, f: Patch --> Verdict): (r: seq<Patch>)
    requires bc >= 1 && Answers(f, x)
    ensures forall a :: a in r ==> Within(a, x)
    ensures PairwiseDisjoint(r)
    ensures forall a :: a in r ==> a == x || f(a) != Discard
    ensures TakeFree(f, x) ==> forall a :: a in r ==> a.v.0 <= bc || a.v.1 <= bc
    decreases x.v.0 + x.v.1
  {
    if x.v.1 <= bc then [x]
    else
      var (down, up) := SplitV(x);
      OracleWithin(f, x, down);
      OracleWithin(f, x, up);
      match (f(down), f(up))
      case (Take, Take) => [x]
      case (Take, Refine) =>
        var r1 := RecV(bc, up, f);
        AddElemDisjoint(r1, up, down);
        AddElem(r1, down)
      case (Refine, Take) =>
        var r1 := RecV(bc, down, f);
        AddElemDisjoint(r1, down, up);
        AddElem(r1, up)
      case (Refine, Refine) =>
        var r1 := RecV(bc, down, f);
        var r2 := RecV(bc, up, f);
        UnionDisjoint(r1, down, r2, up);
        Union(r1, r2)
      case (Refine, Discard) => RecV(bc, down, f)
      case (Discard, Refine) => RecV(bc, up, f)
      case _ => []
  }

  /** `rec_v`: splits the width and continues on the height; same table. */
  function RecV(bc: nat, x: Patch, f: Patch --> Verdict): (r: seq<Patch>)
    requires bc >= 1 && Answers(f, x)
    ensures forall a :: a in r ==> Within(a, x)
    ensures PairwiseDisjoint(r)
    ensures forall a :: a in r ==> a == x || f(a) != Discard
    ensures TakeFree(f, x) ==> forall a :: a in r ==> a.v.0 <= bc || a.v.1 <= bc
    decreases x.v.0 + x.v.1
  {
    if x.v.0 <= bc then [x]
    else
      var (left, right) := SplitH(x);
      OracleWithin(f, x, left);
      OracleWithin(f, x, right);
      match (f(left), f(right))
      case (Take, Take) => [x]
      case (Take, Refine) =>
        var r1 := RecH(bc, right, f);
        AddElemDisjoint(r1, right, left);
        AddElem(r1, left)
      case (Refine, Take) =>
        var r1 := RecH(bc, left, f);
        AddElemDisjoint(r1, left, right);
        AddElem(r1, right)
      case (Refine, Refine) =>
        var r1 := RecH(bc, left, f);
        var r2 := RecH(bc, right, f);
        UnionDisjoint(r1, left, r2, right);
        Union(r1, r2)
      case (Refine, Discard) => RecH(bc, left, f)
      case (Discard, Refine) => RecH(bc, right, f)
      case _ => []
  }

  /** `test`: the entry point starts with a height split. */
  function Test(bc: nat, x: Patch, f: Patch --> Verdict): (r: seq<Patch>)
    requires bc >= 1 && Answers(f, x)
    ensures forall a :: a in r ==> Within(a, x)
    ensures PairwiseDisjoint(r)
    ensures forall a :: a in r ==> a == x || f(a) != Discard
    ensures TakeFree(f, x) ==> forall a :: a in r ==> a.v.0 <= bc || a.v.1 <= bc
  {
    RecH(bc, x, f)
  }

  /** The base case returns the patch whole, whatever the oracle would say:
      the oracle is not consulted. */
  lemma BaseCaseIgnoresOracle(bc: nat, x: Patch, f: Patch --> Verdict, g: Patch --> Verdict)
    requires bc >= 1 && Answers(f, x) && Answers(g, x)
    ensures x.v.1 <= bc ==> RecH(bc, x, f) == RecH(bc, x, g) == [x]
    ensures x.v.0 <= bc ==> RecV(bc, x, f) == RecV(bc, x, g) == [x]
  {
  }

  /** An oracle that discards everything leaves nothing once a split happens. */
  lemma AllDiscard(bc: nat, x: Patch, f: Patch --> Verdict)
    requires bc >= 1 && Answers(f, x)
    requires forall a :: Within(a, x) ==> f(a) == Discard
    ensures Test(bc, x, f) == if x.v.1 <= bc then [x] else []
  {
    if x.v.1 > bc {
      var (down, up) := SplitV(x);
      assert f(down) == Discard;
    }
  }

  /** An oracle that takes everything returns the patch whole. */
  lemma AllTake(bc: nat, x: Patch, f: Patch --> Verdict)
    requires bc >= 1 && Answers(f, x)
    requires forall a :: Within(a, x) ==> f(a) == Take
    ensures Test(bc, x, f) == [x]
  {
    if x.v.1 > bc {
      var (down, up) := SplitV(x);
      assert f(down) == Take && f(up) == Take;
    }
  }

  /** The catch-all arm: a half rated `Take` is dropped together with a
      `Discard` half beside it, on either axis. */
  lemma TakeBesideDiscardIsDropped(bc: nat, x: Patch, f: Patch --> Verdict)
    requires bc >= 1 && Answers(f, x)
    ensures x.v.1 > bc && {f(SplitV(x).0), f(SplitV(x).1)} == {Take, Discard} ==> RecH(bc, x, f) == []
    ensures x.v.0 > bc && {f(SplitH(x).0), f(SplitH(x).1)} == {Take, Discard} ==> RecV(bc, x, f) == []
  {
    OracleWithin(f, x, x);
  }

  /** A half rated `Take` beside a half rated `Refine` is returned whole,
      on either axis. */
  lemma TakeBesideRefineIsKept(bc: nat, x: Patch, f: Patch --> Verdict)
    requires bc >= 1 && Answers(f, x)
    ensures x.v.1 > bc && f(SplitV(x).0) == Take && f(SplitV(x).1) == Refine ==> SplitV(x).0 in RecH(bc, x, f)
    ensures x.v.1 > bc && f(SplitV(x).0) == Refine && f(SplitV(x).1) == Take ==> SplitV(x).1 in RecH(bc, x, f)
    ensures x.v.0 > bc && f(SplitH(x).0) == Take && f(SplitH(x).1) == Refine ==> SplitH(x).0 in RecV(bc, x, f)
    ensures x.v.0 > bc && f(SplitH(x).0) == Refine && f(SplitH(x).1) == Take ==> SplitH(x).1 in RecV(bc, x, f)
  {
    OracleWithin(f, x, x);
  }

  /** Completeness: an oracle that discards nothing inside `x` gets at least
      one patch back from the height split. */
  lemma {:induction false} NoDiscardNonEmptyH(bc: nat, x: Patch, f: Patch --> Verdict)
    requires bc >= 1 && Answers(f, x)
    requires forall a :: Within(a, x) ==> f(a) != Discard
    ensures RecH(bc, x, f) != []
    decreases x.v.0 + x.v.1, 1
  {
    if x.v.1 > bc {
      var (down, up) := SplitV(x);
      OracleWithin(f, x, down);
      OracleWithin(f, x, up);
      if f(down) == Refine && f(up) == Refine {
        NoDiscardNonEmptyV(bc, down, f);
        assert RecV(bc, down, f) != [];
      }
    }
  }

  /** The width-split counterpart of `NoDiscardNonEmptyH`. */
  lemma {:induction false} NoDiscardNonEmptyV(bc: nat, x: Patch, f: Patch --> Verdict)
    requires bc >= 1 && Answers(f, x)
    requires forall a :: Within(a, x) ==> f(a) != Discard
    ensures RecV(bc, x, f) != []
    decreases x.v.0 + x.v.1, 1
  {
    if x.v.0 > bc {
      var (left, right) := SplitH(x);
      OracleWithin(f, x, left);
      OracleWithin(f, x, right);
      if f(left) == Refine && f(right) == Refine {
        NoDiscardNonEmptyH(bc, left, f);
        assert RecH(bc, left, f) != [];
      }
    }
  }

  /** The oracle that always asks for refinement. */
  function AlwaysRefine(a: Patch): Verdict {
    Refine
  }

  /** Under an always-refining oracle every split recurses into both halves. */
  lemma RefineStep(bc: nat, x: Patch)
    requires bc >= 1
    ensures x.v.1 > bc ==>
      RecH(bc, x, AlwaysRefine) == RecV(bc, SplitV(x).0, AlwaysRefine) + RecV(bc, SplitV(x).1, AlwaysRefine)
    ensures x.v.0 > bc ==>
      RecV(bc, x, AlwaysRefine) == RecH(bc, SplitH(x).0, AlwaysRefine) + RecH(bc, SplitH(x).1, AlwaysRefine)
  {
  }

  /** Under an always-refining oracle the number of patches depends only on
      the extent, never on the origin. */
  lemma {:induction false} RefineCountH(bc: nat, x: Patch)
    requires bc >= 1
    ensures |RecH(bc, x, AlwaysRefine)| == LeavesH(bc, x.v.0, x.v.1)
    decreases x.v.0 + x.v.1, 1
  {
    if x.v.1 > bc {
      var down, up := SplitV(x).0, SplitV(x).1;
      RefineStep(bc, x);
      SplitExtents(x);
      RefineCountV(bc, down);
      RefineCountV(bc, up);
    }
  }

  /** The width-split counterpart of `RefineCountH`. */
  lemma {:induction false} RefineCountV(bc: nat, x: Patch)
    requires bc >= 1
    ensures |RecV(bc, x, AlwaysRefine)| == LeavesV(bc, x.v.0, x.v.1)
    decreases x.v.0 + x.v.1, 1
  {
    if x.v.0 > bc {
      var left, right := SplitH(x).0, SplitH(x).1;
      RefineStep(bc, x);
      SplitExtents(x);
      RefineCountH(bc, left);
      RefineCountH(bc, right);
    }
  }

  /** The unit tests' always-discard and always-take searches on the 8x8 patch `x`. */
  lemma SearchDiscardTakeExamples(x: Patch)
    requires x == Patch((0, 0), (8, 8))
    ensures Test(4, x, (a: Patch) => Discard) == []
    ensures Test(4, x, (a: Patch) => Take) == [x]
  {
    AllDiscard(4, x, (a: Patch) => Discard);
    AllTake(4, x, (a: Patch) => Take);
  }

  /** The unit tests' always-refine search on the 8x8 patch `x` at precision 4. */
  lemma SearchRefineCoarseExample(x: Patch)
    requires x == Patch((0, 0), (8, 8))
    ensures |Test(4, x, AlwaysRefine)| == 2 * 2
  {
    RefineCountH(4, x);
    LeavesCoarseExample();
  }

  /** The unit tests' always-refine search on the 8x8 patch `x` at precision 2. */
  lemma SearchRefineFineExample(x: Patch)
    requires x == Patch((0, 0), (8, 8))
    ensures |Test(2, x, AlwaysRefine)| == 4 * 4
  {
    RefineCountH(2, x);
    LeavesFineExample();
  }
}
