# rquarfs core, modelled in Dafny

rquarfs is a voxel terrain renderer. This project models the pieces of it
that are plain logic rather than graphics:

- **Patches and the two virtual quadtrees.** No tree is ever stored: a patch
  `(p, v)` of the height map is split in half over and over, an oracle rates
  every half, and the kept leaves come back as a list.
  - `Quadtree` (`renderer/quadtree.rs`) tests the four corners of each half
    against a point predicate.
  - `LosQuadtree` (`renderer/los/quadtree.rs`) asks a patch oracle to
    `Refine`, `Discard` or `Take` each half.
- **The line-of-sight culler** (`LineOfSight`, `renderer/culing/los.rs`). It
  lifts the corners of a patch onto the terrain, projects them with the
  camera matrix and classifies them on each screen axis. It discards a patch
  whose corners all lie on one wrong side, and memoises the result on the
  matrix and the precision.
- **Height sampling** (`HeightMaps`): `get_coords_height` and the two
  variants of `get_max_neighbour`. `world/image_atlas.rs` clamps missing
  neighbours to 256. `world/textures.rs` answers 200 on the border.
- **The texture atlas** (`TextureAtlas`). It covers the three copies of
  `save`, `from_file` and `generate_atlas`:
  - the square grid of `ceil(sqrt(n))` cells;
  - the cell each texture is pasted into;
  - the file name that records the layout, and the regular expression that
    reads it back.
- **The render pipeline's scheduler** (`Pipeline`, `renderer/pipeline/mod.rs`).
  Stages wait until all their input resources are available, then move to
  the ready queue in order.
- **Vertex indexing** (`VertexIndex`, `renderer/mod.rs`) and **the chunk
  manager** (`ChunkManagers`, `renderer/chunk_manager.rs`). Both keep one
  copy of each distinct vertex and an index list that points into it.

Modelling choices:

- Integers are unbounded. Every `u32` subtraction that could underflow
  becomes a precondition.
- `f32` values are idealised as `real` or as exact integers.
- Panicking `assert!`s in `save` and `generate_atlas` become `Failure`
  results.
- The shared generic helpers live in `Seqs` and `Wrappers`:
  - `Partition` models the pair of complementary `filter`s;
  - `Position` models `iter().position`;
  - `Subsequence` and `NoDup` are predicates;
  - `Option` and `Result` are the wrapper types.

## Model

| member | source | states |
|---|---|---|
| Patches.GetCorners | src/renderer/los/quadtree.rs:60-67 | the four corners are covered, come in the order (low, low), (low, high), (high, low), (high, high), and span exactly the covered points |
| Patches.CornersExample | src/renderer/quadtree.rs:227-241 | the corner unit test: the patch from (10, 0) of extent (22, 8) has corners (10,0), (10,8), (32,0), (32,8) |
| Patches.DisjointIffNoCommonPoint | src/renderer/los/quadtree.rs:13-34 | two patches are separated on an axis exactly when no grid point lies in both |
| Patches.WithinCovers | src/renderer/los/quadtree.rs:13-34 | a patch inside another covers only points the outer one covers |
| Patches.WithinDisjoint | src/renderer/los/quadtree.rs:13-34 | patches inside two disjoint patches are disjoint |
| Patches.UnionDisjoint | src/renderer/los/quadtree.rs:146-151 | appending the leaves of two disjoint halves keeps every pair of leaves disjoint |
| Patches.AddElemDisjoint | src/renderer/los/quadtree.rs:140-144 | pushing a patch disjoint from the region of the earlier leaves keeps them pairwise disjoint |
| Patches.AddElem | src/renderer/los/quadtree.rs:140-144 | the pushed list is one longer, keeps the old list as its prefix and ends with the new patch |
| Patches.Union | src/renderer/los/quadtree.rs:146-151 | the appended list is the first list followed by the second, with the summed length |
| LosQuadtree.SplitV | src/renderer/los/quadtree.rs:36-47 | both halves lie inside the patch and are disjoint; the upper half starts one row above the lower half's top; together they span the height rounded down to even; both are strictly smaller |
| LosQuadtree.SplitH | src/renderer/los/quadtree.rs:48-58 | the same on the x axis |
| LosQuadtree.SplitVCoversEven | src/renderer/los/quadtree.rs:36-47 | with an even height the halves cover exactly the patch's points |
| LosQuadtree.SplitVDropsTopRowWhenOdd | src/renderer/los/quadtree.rs:36-47 | with an odd height the patch's top row is in neither half |
| LosQuadtree.SplitHCoversEven | src/renderer/los/quadtree.rs:48-58 | with an even width the halves cover exactly the patch's points |
| LosQuadtree.SplitExtents | src/renderer/los/quadtree.rs:36-58 | the first half is `half - 1` long and the second `half` long on the split axis, where `half` is the extent halved and rounded down |
| LosQuadtree.SplitExample | src/renderer/los/quadtree.rs:173-206 | the split unit tests: 8x8 splits into extents 3 and 4, the second half starting at 4 |
| LosQuadtree.OracleWithin | src/renderer/los/quadtree.rs:93-138 | an oracle defined (and never answering Take) on a patch stays so on every patch inside it |
| LosQuadtree.RecH | src/renderer/los/quadtree.rs:93-114 | every leaf lies inside the patch; leaves are pairwise disjoint; no leaf other than the patch itself was discarded; with no Take answer every leaf is at most the precision on some axis; completeness is stated by TakeBesideRefineIsKept and NoDiscardNonEmptyH |
| LosQuadtree.RecV | src/renderer/los/quadtree.rs:117-138 | the same for the width split |
| LosQuadtree.Test | src/renderer/los/quadtree.rs:86-90 | the search from the root keeps the RecH guarantees |
| LosQuadtree.BaseCaseIgnoresOracle | src/renderer/los/quadtree.rs:96-98 | a patch already within the precision comes back whole, whatever the oracle |
| LosQuadtree.AllDiscard | src/renderer/los/quadtree.rs:105-113 | an oracle discarding everything leaves nothing once a split happens |
| LosQuadtree.AllTake | src/renderer/los/quadtree.rs:105-113 | an oracle taking everything returns the patch whole |
| LosQuadtree.TakeBesideRefineIsKept | src/renderer/los/quadtree.rs:107-108 | a half rated Take beside a half rated Refine is among the leaves, on both split axes |
| LosQuadtree.NoDiscardNonEmptyH | src/renderer/los/quadtree.rs:93-114 | an oracle that discards nothing inside the patch gets at least one leaf back from the height split |
| LosQuadtree.NoDiscardNonEmptyV | src/renderer/los/quadtree.rs:117-138 | the same for the width split |
| LosQuadtree.TakeBesideDiscardIsDropped | src/renderer/los/quadtree.rs:105-113 | the catch-all arm: a Take half beside a Discard half loses both, on either axis |
| LosQuadtree.RefineStep | src/renderer/los/quadtree.rs:105-113 | under an always-refining oracle a split recurses into both halves on the other axis |
| LosQuadtree.RefineCountH | src/renderer/los/quadtree.rs:93-114 | under an always-refining oracle the number of leaves depends only on the extent (LosLeaves.LeavesH), not on the origin |
| LosQuadtree.RefineCountV | src/renderer/los/quadtree.rs:117-138 | the width-split counterpart (LosLeaves.LeavesV) |
| LosQuadtree.SearchDiscardTakeExamples | src/renderer/los/quadtree.rs:247-265 | search unit test: always-Discard gives no leaf and always-Take gives the root |
| LosQuadtree.SearchRefineCoarseExample | src/renderer/los/quadtree.rs:276-283 | search unit test: always-Refine at precision 4 gives 2*2 leaves |
| LosQuadtree.SearchRefineFineExample | src/renderer/los/quadtree.rs:267-274 | search unit test: always-Refine at precision 2 gives 4*4 leaves |
| LosLeaves.LeavesCoarseExample | src/renderer/los/quadtree.rs:276-283 | an 8x8 extent at precision 4 has 4 leaves |
| LosLeaves.LeavesFineExample | src/renderer/los/quadtree.rs:267-274 | an 8x8 extent at precision 2 has 16 leaves |
| LosLeaves.CoarseLevels | src/renderer/los/quadtree.rs:276-283 | the halves 8x3 and 8x4 at precision 4 have 2 leaves each |
| LosLeaves.FineLevels | src/renderer/los/quadtree.rs:267-274 | the halves 8x3 and 8x4 at precision 2 have 8 leaves each |
| LosLeaves.FineQuarters | src/renderer/los/quadtree.rs:267-274 | the four quarters at precision 2 have 4 leaves each |
| Quadtree.SplitV | src/renderer/quadtree.rs:36-47 | both halves lie inside the patch, have half its height, and the upper one starts at the middle row |
| Quadtree.SplitH | src/renderer/quadtree.rs:48-58 | the same on the x axis |
| Quadtree.SplitVShape | src/renderer/quadtree.rs:36-47 | the halves share exactly the middle row, and with an even height they cover exactly the patch |
| Quadtree.SplitHShape | src/renderer/quadtree.rs:48-58 | the halves share exactly the middle column, and with an even width they cover exactly the patch |
| Quadtree.SplitExample | src/renderer/quadtree.rs:191-224 | the split unit tests: 8x8 splits into two halves of extent 4, the second starting at 4 |
| Quadtree.TestCorners | src/renderer/quadtree.rs:90-105 | All exactly when every corner passes, None exactly when none does, Some otherwise |
| Quadtree.TestCornersExample | src/renderer/quadtree.rs:244-262 | the corner unit test: true gives All, y > 0 gives Some, false gives None |
| Quadtree.NoAllBesideNoneV | src/renderer/quadtree.rs:122-130 | halves of a height split share two corners, so All beside None cannot occur |
| Quadtree.NoAllBesideNoneH | src/renderer/quadtree.rs:148-156 | the same for a width split |
| Quadtree.KeptHalf | src/renderer/quadtree.rs:122-130 | leaves of a kept half stay inside the patch and pass at a corner |
| Quadtree.RecH | src/renderer/quadtree.rs:108-131 | every leaf lies inside the patch, and every leaf other than the patch passes the predicate at some corner; completeness for power-of-two extents is stated by CornerKeptH |
| Quadtree.RecV | src/renderer/quadtree.rs:134-157 | the same for the width split |
| Quadtree.SplitVCorners | src/renderer/quadtree.rs:36-47 | with an even height each corner of the patch is a corner of one of the halves |
| Quadtree.SplitHCorners | src/renderer/quadtree.rs:48-58 | with an even width each corner of the patch is a corner of one of the halves |
| Quadtree.HalfReachesH | src/renderer/quadtree.rs:118-130 | a point of a half that passes at some corner is covered by a leaf of the height split: whole for All, through the half's width split for Some |
| Quadtree.HalfReachesV | src/renderer/quadtree.rs:144-156 | the same for the width split |
| Quadtree.CornerKeptH | src/renderer/quadtree.rs:108-131 | with power-of-two extents every passing corner of the patch is covered by some leaf of the height split |
| Quadtree.CornerKeptV | src/renderer/quadtree.rs:134-157 | the same for the width split |
| Quadtree.CornersKept | src/renderer/quadtree.rs:76-80 | with power-of-two extents the search keeps every passing corner, so a patch passing at some corner gives at least one leaf |
| Quadtree.OddExtentLosesCorner | src/renderer/quadtree.rs:36-47 | on an odd height a passing corner on the dropped top row is lost: the 0x3 patch with the predicate y == 3 gives no leaf at precision 1 |
| Quadtree.Test | src/renderer/quadtree.rs:76-80 | the search from the root keeps the RecH guarantees; with power-of-two extents every passing corner of the root is covered by a leaf, so a root passing at some corner gives at least one leaf |
| Quadtree.NonePass | src/renderer/quadtree.rs:122-130 | a predicate failing everywhere leaves nothing once a split happens |
| Quadtree.AllPass | src/renderer/quadtree.rs:122-130 | a predicate passing everywhere returns the patch whole |
| Quadtree.SearchExamples | src/renderer/quadtree.rs:265-287 | search unit test: false gives no leaf, true gives one |
| Quadtree.SearchAboveFourExample | src/renderer/quadtree.rs:289-294 | search unit test: y > 4 at precision 2 gives six leaves |
| Quadtree.RecHUpOnly | src/renderer/quadtree.rs:126 | upper half Some and lower half None continues on the upper half alone |
| Quadtree.RecVBothSome | src/renderer/quadtree.rs:154 | both halves Some continues on both, in order |
| Quadtree.UpperBand | src/renderer/quadtree.rs:289-294 | the upper half of the test root yields six leaves |
| Quadtree.LeftQuarter | src/renderer/quadtree.rs:289-294 | the upper-left quarter yields three leaves |
| Quadtree.RightQuarter | src/renderer/quadtree.rs:289-294 | the upper-right quarter yields three leaves |
| Quadtree.LeftStrip | src/renderer/quadtree.rs:289-294 | the strip straddling y = 4 on the left yields two leaves |
| Quadtree.RightStrip | src/renderer/quadtree.rs:289-294 | the same strip on the right yields two leaves |
| HeightMaps.CoordsHeight | src/world/image_atlas.rs:79-83 | the height is the red channel divided by 5 and truncated, hence at most 51 |
| HeightMaps.FoldMin | src/world/image_atlas.rs:112 | the fold of min is no larger than its seed and every element, and equals one of them |
| HeightMaps.ClampedHeight | src/world/image_atlas.rs:94-110 | a neighbour outside the image contributes 256, one inside contributes its height |
| HeightMaps.ClampedHeights | src/world/image_atlas.rs:92-111 | one contribution per kernel offset, in kernel order |
| HeightMaps.MaxNeighbourClamped | src/world/image_atlas.rs:86-117 | the result is the pixel's height minus the least of 256 and its in-image neighbours' heights |
| HeightMaps.MaxNeighbourBorder | src/world/textures.rs:92-114 | 200 on the border; inside it, the height minus the least neighbour height |
| HeightMaps.InteriorLowest | src/world/textures.rs:101-109 | away from the border the fold finds the least of the eight neighbours |
| HeightMaps.KernelUnit | src/world/image_atlas.rs:90 | the kernel has eight offsets, each moving at most one pixel per axis |
| HeightMaps.VariantsAgreeInside | src/world/textures.rs:92-114 | away from the border the two get_max_neighbour variants agree |
| HeightMaps.LonePixel | src/world/image_atlas.rs:86-117 | a one-pixel image has no neighbour, so its slope is its height minus 256 |
| LineOfSight.Classify | src/renderer/culing/los.rs:160-190 | Back comes only as a pair and exactly when the point is behind the camera or outside the depth range; otherwise each axis is Less, Greather or In by where it lies against [-1, 1] |
| LineOfSight.CheckVoxel | src/renderer/culing/los.rs:146-191 | the projected terrain point is Back on one axis exactly when it is Back on the other |
| LineOfSight.Rate | src/renderer/culing/los.rs:64-136 | never Take; Discard exactly when all corners are Back, or all Less, or all Greather on one axis |
| LineOfSight.VisibleCornerKeeps | src/renderer/culing/los.rs:80-120 | a patch with one corner in view on both axes is refined |
| LineOfSight.StraddleKeeps | src/renderer/culing/los.rs:80-120 | corners straddling the view on one axis and inside it on the other keep the patch |
| LineOfSight.CornerClasses | src/renderer/culing/los.rs:64-79 | four classifications, each Back on both axes or neither |
| LineOfSight.Root | src/renderer/culing/los.rs:61-63 | the root patch covers exactly the pixels of the map |
| LineOfSight.RatePatch | src/renderer/culing/los.rs:64-136 | a patch inside the map is never rated Take |
| LineOfSight.Oracle | src/renderer/culing/los.rs:64-136 | the closure given to the search rates every patch inside the map and never answers Take there |
| LineOfSight.New | src/renderer/culing/los.rs:35-43 | no patches, the zero matrix and precision 0 |
| LineOfSight.UpdateView | src/renderer/culing/los.rs:49-137 | a repeat of the last matrix and precision changes nothing; otherwise the matrix and precision are stored and the patches are exactly the search at that precision over the whole map with the culling oracle, so they lie in the map, are pairwise disjoint, are within the precision on some axis and were not discarded |
| LineOfSight.UpdateIdempotent | src/renderer/culing/los.rs:52-56 | a second identical update is a no-op |
| LineOfSight.PatchesAfterUpdate | src/renderer/culing/los.rs:45-47 | the patches read back after an update are the stored ones on a repeat, otherwise the search result over the whole map |
| LineOfSight.Dimensions | src/renderer/culing/los.rs:139-141 | the reported dimensions are the number of pixel columns and the length of each column |
| LineOfSight.DimensionsStable | src/renderer/culing/los.rs:139-141 | updating never changes the reported dimensions |
| LineOfSight.NewHasNoPatches | src/renderer/culing/los.rs:35-56 | a new culler has no patches, and an update with its initial matrix and precision keeps none |
| TextureAtlas.NatToString | src/world/image_atlas.rs:187-193 | the decimal rendering is a digit run without a leading zero that parses back to the number |
| TextureAtlas.SpanWhile | src/world/image_atlas.rs:157 | the longest prefix whose characters satisfy the class |
| TextureAtlas.DigitsThen | src/world/image_atlas.rs:157 | a `(\d+)c` match splits the text into a digit run, the separator and the rest |
| TextureAtlas.DigitGroups | src/world/image_atlas.rs:157 | one digit run per separator |
| TextureAtlas.DigitGroupsOfRender | src/world/image_atlas.rs:157 | digit runs joined by non-digit separators are read back as themselves |
| TextureAtlas.MatchPrefix | src/world/image_atlas.rs:157 | an anchored match yields five digit groups |
| TextureAtlas.SearchFrom | src/world/image_atlas.rs:158 | the leftmost matching position and its groups, or no position matches |
| TextureAtlas.SaveName | src/world/image_atlas.rs:182-203 | fails with DimensionMismatch exactly when the image is not side textures wide and high |
| TextureAtlas.FromFileName | src/world/image_atlas.rs:152-179 | fails with NoMatch exactly when no position of the name matches the pattern; on success the layout is the values of groups 1 to 4 of the leftmost match |
| TextureAtlas.MatchFileName | src/world/image_atlas.rs:157 | a name built from a word, five digit runs and a word extension matches at its start with those runs |
| TextureAtlas.ParseFileName | src/world/image_atlas.rs:152-179 | such a name reads back as the values of groups 1 to 4 |
| TextureAtlas.SaveThenLoad | src/world/image_atlas.rs:182-193 | the name save gives an atlas with a word name reads back as that atlas's layout |
| TextureAtlas.TestNameOneSpelled | src/world/textures.rs:304 | the first unit test's file name has the form name.n_750x750_sxs.atlas.png |
| TextureAtlas.TestNameTwoSpelled | src/world/textures.rs:312 | the same for the second unit test |
| TextureAtlas.TestNameThreeSpelled | src/world/textures.rs:318 | the same for the third unit test |
| TextureAtlas.TestNameParses | src/world/textures.rs:301-320 | a name of that form reads back as n textures of 750x750 on an s by s grid |
| TextureAtlas.ThirdTestNameReadsBack | src/world/textures.rs:318 | the third unit test's file name reads back as 25 textures of 750x750 on a 5 by 5 grid |
| TextureAtlas.NoDotFails | src/world/image_atlas.rs:157-177 | a name without a dot does not match, so reading it fails |
| TextureAtlas.CeilSqrt | src/world/image_atlas.rs:222 | the least side whose square holds every texture |
| TextureAtlas.Cells | src/world/image_atlas.rs:243-260 | one cell per texture until the grid is full |
| TextureAtlas.Layout | src/world/image_atlas.rs:243-260 | the nested loops with their early breaks fill exactly the cells of Cells, column by column |
| TextureAtlas.DivModOfCell | src/world/image_atlas.rs:243-244 | the k-th cell visited is column k / side, row k % side |
| TextureAtlas.CellOrigin | src/world/image_atlas.rs:243-249 | the origin of a cell gives its index back, and the cell fits inside the side*texW by side*texH image |
| TextureAtlas.CellInside | src/world/image_atlas.rs:236-249 | every cell lies inside the side*texW by side*texH image |
| TextureAtlas.CellsDisjoint | src/world/image_atlas.rs:243-249 | two different cells do not overlap |
| TextureAtlas.GeneratedName | src/world/image_atlas.rs:266-273 | an atlas whose image matches its layout saves successfully, under a name that reads back as its layout |
| TextureAtlas.GenerateAtlas | src/world/image_atlas.rs:213-275 | no textures fails with NoImages, mixed sizes fail with MixedSizes, otherwise the atlas has n textures of the first size on a CeilSqrt(n) grid, an image side times that size, one cell per texture, and a name that reads back as the layout |
| Pipeline.NewPipe | src/renderer/pipeline/mod.rs:79-81 | a new pipeline has no stages |
| Pipeline.Queue | src/renderer/pipeline/mod.rs:83-85 | the stage goes last and the earlier stages are kept |
| Pipeline.AllAvailable | src/renderer/pipeline/mod.rs:133-136 | the fold is true exactly when every input is available |
| Pipeline.NewRunner | src/renderer/pipeline/mod.rs:104-116 | nothing available; the ready queue holds the input-less stages and the wait list the others, each in queue order, and together they are the queue |
| Pipeline.Pop | src/renderer/pipeline/mod.rs:118-120 | none exactly when nothing is ready; otherwise the front stage and the rest of the queue |
| Pipeline.Commit | src/renderer/pipeline/mod.rs:124-151 | the outputs join the available set; the newly satisfied waiting stages are appended in wait order; the stages left waiting are unsatisfied; no stage is lost or duplicated |
| Pipeline.CommitReleases | src/renderer/pipeline/mod.rs:124-151 | when the wait list is the released stages followed by the blocked ones, commit moves exactly the released ones |
| Pipeline.CommitKeepsCount | src/renderer/pipeline/mod.rs:130-150 | commit keeps the total number of stages |
| Pipeline.SatisfiedMonotone | src/renderer/pipeline/mod.rs:126-128 | a satisfied stage stays satisfied as resources are added |
| Pipeline.ConsistentSteps | src/renderer/pipeline/mod.rs:104-151 | new, pop and commit keep every ready stage runnable and every waiting stage blocked |
| Pipeline.Drain | src/renderer/pipeline/mod.rs:205-209 | the test loop stops with an empty ready queue |
| Pipeline.Step | src/renderer/pipeline/mod.rs:205-209 | one turn moves the front stage out and keeps the others |
| Pipeline.DrainUnfold | src/renderer/pipeline/mod.rs:205-209 | the first ready stage runs first, then the rest |
| Pipeline.DrainKeepsStages | src/renderer/pipeline/mod.rs:205-209 | every stage either ran once or is still waiting |
| Pipeline.DrainConsistent | src/renderer/pipeline/mod.rs:205-210 | after draining, every waiting stage is still blocked |
| Pipeline.DrainRunsTrace | src/renderer/pipeline/mod.rs:60-62 | the context after draining is each run stage executed, in run order, on its own inputs |
| Pipeline.DoneIffAllRan | src/renderer/pipeline/mod.rs:153-155 | the run is done exactly when every stage held was run |
| Pipeline.DiamondStart | src/renderer/pipeline/mod.rs:184-205 | in the diamond unit test only the source stage starts ready |
| Pipeline.DiamondFirstStep | src/renderer/pipeline/mod.rs:184-209 | producing a releases the stages b and c |
| Pipeline.DiamondAfterA | src/renderer/pipeline/mod.rs:188-203 | with a available, b and c can run and d and e cannot |
| Pipeline.DiamondSecondStep | src/renderer/pipeline/mod.rs:184-209 | producing b releases nothing |
| Pipeline.DiamondAfterB | src/renderer/pipeline/mod.rs:196-203 | d and e are still blocked |
| Pipeline.DiamondThirdStep | src/renderer/pipeline/mod.rs:184-209 | producing c releases d |
| Pipeline.DiamondAfterC | src/renderer/pipeline/mod.rs:196-203 | d can run and e cannot |
| Pipeline.DiamondFourthStep | src/renderer/pipeline/mod.rs:184-209 | producing d releases the last stage |
| Pipeline.DiamondDrains | src/renderer/pipeline/mod.rs:205-210 | the diamond unit test ends done |
| Pipeline.ChainStart | src/renderer/pipeline/mod.rs:221-225 | in the chain unit test only the first stage starts ready |
| Pipeline.ChainFirstStep | src/renderer/pipeline/mod.rs:221-228 | producing 1 releases the second stage |
| Pipeline.ThirdBlocked | src/renderer/pipeline/mod.rs:223 | the third stage waits for 2 |
| Pipeline.ChainSecondStep | src/renderer/pipeline/mod.rs:221-228 | producing 2 releases the third stage |
| Pipeline.ChainThirdStep | src/renderer/pipeline/mod.rs:221-228 | producing 3 empties both lists |
| Pipeline.ChainCounts | src/renderer/pipeline/mod.rs:225-231 | the chain ends done with the state at 3 |
| Seqs.Partition | src/renderer/pipeline/mod.rs:104-116 | the two complementary filters split the elements between them, keep their order and sort each by the predicate |
| Seqs.PartitionNone | src/renderer/pipeline/mod.rs:104-116 | with no element selected, everything lands on the second side |
| Seqs.PartitionPrefix | src/renderer/pipeline/mod.rs:130-150 | when exactly the first n are selected, the split is at n |
| Seqs.Position | src/renderer/mod.rs:30 | the index of the first equal element, or none exactly when it is absent |
| Seqs.NoDupCardinality | src/renderer/mod.rs:25-42 | a duplicate-free list has as many elements as its set |
| VertexIndex.DedupCount | src/renderer/mod.rs:25-42 | the first occurrences are exactly as many as the distinct elements |
| VertexIndex.Dedup | src/renderer/mod.rs:21-43 | the reference: the distinct elements in order of first occurrence, each from the input and covering it |
| VertexIndex.DedupOfNoDup | src/renderer/mod.rs:29-38 | a duplicate-free list is its own first occurrences |
| VertexIndex.DedupPrefix | src/renderer/mod.rs:29-38 | later input never disturbs the vertices already kept |
| VertexIndex.DedupOrder | src/renderer/mod.rs:29-38 | vertices kept earlier occur earlier in the input |
| VertexIndex.PositionPrefix | src/renderer/mod.rs:30 | a lookup in a longer list finds an element of the prefix at the same place |
| VertexIndex.PositionAppendFresh | src/renderer/mod.rs:32-35 | a new vertex is found at the end it was appended to |
| VertexIndex.Absorb | src/renderer/mod.rs:29-38 | one index per input vertex |
| VertexIndex.AbsorbSound | src/renderer/mod.rs:29-38 | the kept vertices only grow at the end, each index points at an equal vertex, and starting duplicate-free the kept vertices are the first occurrences |
| VertexIndex.AbsorbGrows | src/renderer/mod.rs:32-35 | kept vertices only grow at the end |
| VertexIndex.AbsorbIndexes | src/renderer/mod.rs:29-38 | each index points at a vertex equal to its input |
| VertexIndex.AbsorbDedup | src/renderer/mod.rs:29-38 | the kept vertices are the first occurrences of the input |
| VertexIndex.AbsorbSnoc | src/renderer/mod.rs:29-38 | one more input adds one lookup |
| VertexIndex.IndexVertexList | src/renderer/mod.rs:21-43 | one index per input; each index points at an equal vertex; the vertices are duplicate-free, are the input's first occurrences, and are as many as the distinct input vertices |
| VertexIndex.TestPointsDedup | src/renderer/mod.rs:67-79 | the eight test points have four distinct vertices |
| VertexIndex.RepeatsAddNothing | src/renderer/mod.rs:29-38 | vertices already seen add nothing |
| VertexIndex.IndexVerticesExample | src/renderer/mod.rs:67-83 | the unit test: four vertices and eight indices |
| ChunkManagers.New | src/renderer/chunk_manager.rs:37-43 | empty buffers and no chunk, and valid |
| ChunkManagers.AddChunk | src/renderer/chunk_manager.rs:45-66 | a known hash changes nothing; otherwise the buffers only grow at the end, the new chunk spans the appended indices, each of which points at an equal vertex |
| ChunkManagers.AddChunkFirstOccurrences | src/renderer/chunk_manager.rs:50-60 | the vertex buffer becomes the first occurrences of the old buffer followed by the object's vertices |
| ChunkManagers.AddChunkNoDup | src/renderer/chunk_manager.rs:54-60 | no vertex is stored twice |
| ChunkManagers.AddChunkValid | src/renderer/chunk_manager.rs:45-66 | adding keeps indices inside the vertex buffer and chunks inside the index buffer |
| ChunkManagers.AddChunkReadsBack | src/renderer/chunk_manager.rs:45-66 | the chunk just added reads back as the object's vertices |
| ChunkManagers.ChunkReadsAs | src/renderer/chunk_manager.rs:62-65 | a chunk whose indices point at the object's vertices reads back as them |
| ChunkManagers.AddChunkKeepsOthers | src/renderer/chunk_manager.rs:45-66 | every chunk stored earlier still reads back the same vertices |
| ChunkManagers.FirstSegment | src/renderer/chunk_manager.rs:129-136 | the first test segment stores two vertices and two indices |
| ChunkManagers.SecondSegment | src/renderer/chunk_manager.rs:138-140 | the second test segment shares one vertex |
| ChunkManagers.ThirdSegment | src/renderer/chunk_manager.rs:142-144 | the third test segment shares both vertices |
| ChunkManagers.SegmentsExample | src/renderer/chunk_manager.rs:122-145 | the add unit test: 2, 3, 3 vertices and 2, 4, 6 indices |

## Left out

- LosQuadtree.SplitV: `half - 1` is a `u32` subtraction that underflows on an extent of 1. The model requires an extent of at least 2. RecH, RecV and Test therefore require a precision of at least 1, so a split only happens on extents of at least 2.
- LosQuadtree.SplitV: on an odd extent the two halves leave the patch's last row (or column) out. The model keeps this as written and states it in SplitVDropsTopRowWhenOdd.
- LineOfSight.UpdateView: requires a non-empty map and a precision of at least 1 unless the call is a repeat. `size - 1` underflows on an empty map. With a precision of 0 the split can underflow, since `half - 1` underflows once refinement reaches an extent of 1 on the split axis.
- LineOfSight: `renderer::culing::quadtree` is not part of this model. The culler's search is modelled with the LosQuadtree semantics, which have the same `test(precision, patch, oracle)` shape.
- LineOfSight: `f32` arithmetic in the projection and the classification is idealised as exact `real` arithmetic. Rounding is not modelled.
- HeightMaps: the `i32` and `u32` casts of neighbour coordinates are idealised as integers. The red channel is a byte, so no cast loses information.
- HeightMaps.MaxNeighbourBorder: away from the first row and column it requires `width >= 1`, `height >= 1` and an in-bounds pixel. `max_i - 1` is a `u32` subtraction, and `get_pixel` panics outside the image.
- TextureAtlas.CeilSqrt: `(n as f32).sqrt().ceil()` is taken to be the exact ceiling of the square root. `f32` rounding for very large counts is not modelled.
- TextureAtlas.FromFileName: only the file-name string is parsed. The file system is not modelled: `canonicalize`, `file_name` and opening the image. `\w` and `\d` are taken as ASCII, and the unescaped `.` before the extension as any character but a line feed.
- TextureAtlas.FromFileName: `parse::<usize>` overflow is not modelled, because numbers are unbounded.
- TextureAtlas.ParseFileName: the parse is not injective, since digit runs with leading zeros give the same numbers. The round trip is stated from the layout to the name and back.
- TextureAtlas.SaveName: writing the image file and creating the folder are I/O and are left out. Only the name and the dimension asserts are modelled.
- TextureAtlas.GenerateAtlas: the textures are given by their dimensions. Reading the folder, loading and pasting the pixels are I/O and are left out. The texture count from `read_dir` is taken to equal the number of images loaded.
- TextureAtlas.Layout: requires at least one texture, because the loop copies `images[0]` before its first break check.
- TextureAtlas: `model/textures.rs` has an empty `from_file` and a `generate_atlas` that returns the atlas rather than a `Result`. Its `save` and layout are the same as in the two other files, and this one model covers all three.
- TextureAtlas.TestNameParses: the three unit-test file names are not parsed as literals. Instead, TestNameParses proves the general case, and the Spelled lemmas show each literal name has the general form. ThirdTestNameReadsBack states the third name's values.
- Quadtree.RecH: the result is not claimed to be pairwise disjoint, because the halves of this older quadtree share their middle row.
- Quadtree.RecH: completeness (every passing corner is covered by a leaf) is proved only when both extents are powers of two, so that every split is on an even extent. On an odd extent the top row or right column is in neither half, and a corner passing there can be lost; OddExtentLosesCorner exhibits a case with no leaf at all.
- Pipeline: `execute` is the stage's function applied to the context. What a real stage does to the renderer is out of scope.
- Pipeline: the resource strings `"a"` to `"d"` of the diamond unit test are modelled as the enum `Res`.
- Pipeline: the `stage` unit test only constructs a stage, so it has no model.
- ChunkManagers: the `SipHasher` hash of an object is a parameter `h` chosen by the caller. Hash collisions are not modelled.
- ChunkManagers: the indices are unbounded `nat` rather than `usize`.
- VertexIndex.IndexVertexList: the indices are unbounded `nat`, so the `as u32` cast is not modelled.
- I/O, GPU upload, `to_mesh`, `generate_noise`, `load_rgb`, `load_images_rgba`, `load_textures` and `load_atlas` are left out. They are file-system, graphics or noise code with no logic of their own.
- The `los_ctor` and `pvm_checks` tests of the culler are left out. They load a height-map image and build `cgmath` perspective and look-at matrices, which this model does not have.
