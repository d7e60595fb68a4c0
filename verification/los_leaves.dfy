/** Leaf counts of the height-map quadtree under an oracle that always asks
    for refinement: a closed recursion on extents alone. */
module LosLeaves {

  /** Leaves produced from an extent `(w, h)` by an always-refining oracle,
      starting with a height split. `(h - 2) / 2` is `h / 2 - 1` for `h >= 2`. */
  function LeavesH(bc: nat, w: nat, h: nat): nat
    requires bc >= 1
    decreases w + h
  {
    if h <= bc then 1 else LeavesV(bc, w, (h - 2) / 2) + LeavesV(bc, w, h / 2)
  }

  /** Same, starting with a width split. */
  function LeavesV(bc: nat, w: nat, h: nat): nat
    requires bc >= 1
    decreases w + h
  {
    if w <= bc then 1 else LeavesH(bc, (w - 2) / 2, h) + LeavesH(bc, w / 2, h)
  }

  /** Leaf count of the 8x8 extent the unit tests use, at precision 4. */
  lemma LeavesCoarseExample()
    ensures LeavesH(4, 8, 8) == 4
  {
    CoarseLevels();
  }

  /** Leaf count of the 8x8 extent the unit tests use, at precision 2. */
  lemma LeavesFineExample()
    ensures LeavesH(2, 8, 8) == 16
  {
    FineLevels();
  }

  /** The two width splits below the first height split, at precision 4. */
  lemma CoarseLevels()
    ensures LeavesV(4, 8, 3) == 2 && LeavesV(4, 8, 4) == 2
  {
  }

  /** The two width splits below the first height split, at precision 2. */
  lemma FineLevels()
    ensures LeavesV(2, 8, 3) == 8 && LeavesV(2, 8, 4) == 8
  {
    FineQuarters();
  }

  /** The four quarter extents at precision 2. */
  lemma FineQuarters()
    ensures LeavesH(2, 3, 3) == 4 && LeavesH(2, 4, 3) == 4
    ensures LeavesH(2, 3, 4) == 4 && LeavesH(2, 4, 4) == 4
  {
  }
}
