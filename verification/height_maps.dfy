/** Reading terrain heights out of a height-map image.

    Only the red channel of an RGB pixel matters: its value (0..255) divided
    by 5 and truncated is the height of the terrain column. The "max
    neighbour" slope compares a pixel's height with the lowest of its eight
    neighbours; the image-atlas module treats neighbours outside the image
    as height 256, the texture module answers 200 for every border pixel. */
module HeightMaps {

  /** The red channel of a `width x height` image, indexed `red[x][y]`
      like `get_pixel(x, y)`. */
  datatype HeightMap = HeightMap(width: nat, height: nat, red: seq<seq<nat>>)

  /** The channel table has the stated dimensions and holds bytes. */
  ghost predicate Valid(m: HeightMap) {
    && |m.red| == m.width
    && (forall x :: 0 <= x < |m.red| ==> |m.red[x]| == m.height)
    && (forall x, y :: 0 <= x < |m.red| && 0 <= y < |m.red[x]| ==> m.red[x][y] < 256)
  }

  /** `(i, j)` is a pixel of the image; `get_pixel` panics on anything else. */
  predicate InBounds(m: HeightMap, i: int, j: int) {
    0 <= i < m.width && 0 <= j < m.height
  }

  /** `get_coords_height`: the red channel divided by 5, truncated. */
  function CoordsHeight(m: HeightMap, i: nat, j: nat): (r: nat)
    requires Valid(m) && InBounds(m, i, j)
    ensures r * 5 <= m.red[i][j] < r * 5 + 5
    ensures r <= 51
  {
    m.red[i][j] / 5
  }

  /** The eight neighbour offsets, in the order the kernel lists them. */
  const Kernel: seq<(int, int)> := [(-1, 1), (0, 1), (1, 1), (-1, 0), (1, 0), (-1, -1), (0, -1), (1, -1)]

  /** `min` of two heights. */
  function Min(a: int, b: int): int {
    if a <= b then a else b
  }

  /** The left fold of `min` over `s` starting at `acc`: the least of `acc`
      and the elements of `s`. */
  function FoldMin(s: seq<int>, acc: int): (r: int)
    ensures r <= acc && forall k :: 0 <= k < |s| ==> r <= s[k]
    ensures r == acc || exists k :: 0 <= k < |s| && r == s[k]
  {
    if s == [] then acc
    else
      var r := FoldMin(s[1..], Min(acc, s[0]));
      assert forall k :: 1 <= k < |s| ==> s[1..][k - 1] == s[k];
      assert r != Min(acc, s[0]) ==> exists k :: 1 <= k < |s| && r == s[k];
      r
  }

  /** The height a neighbour contributes in the image-atlas variant: 256
      outside the image, its height inside. */
  function ClampedHeight(m: HeightMap, i: nat, j: nat, d: (int, int)): (r: int)
    requires Valid(m)
    ensures !InBounds(m, i + d.0, j + d.1) ==> r == 256
    ensures InBounds(m, i + d.0, j + d.1) ==> r == CoordsHeight(m, i + d.0, j + d.1)
  {
    var a, b := i + d.0, j + d.1;
    if a < 0 then 256
    else if b < 0 then 256
    else if a >= m.width then 256
    else if b >= m.height then 256
    else CoordsHeight(m, a, b)
  }

  /** The contributions of the neighbours at offsets `ks`. */
  function ClampedHeights(m: HeightMap, i: nat, j: nat, ks: seq<(int, int)>): (r: seq<int>)
    requires Valid(m)
    ensures |r| == |ks| && forall k :: 0 <= k < |ks| ==> r[k] == ClampedHeight(m, i, j, ks[k])
  {
    if ks == [] then [] else [ClampedHeight(m, i, j, ks[0])] + ClampedHeights(m, i, j, ks[1..])
  }

  /** `low` is the least of 256 and the heights of the neighbours of
      `(i, j)` that lie inside the image. */
  ghost predicate LowestClamped(m: HeightMap, i: nat, j: nat, low: int)
    requires Valid(m)
  {
    && low <= 256
    && (forall k :: 0 <= k < |Kernel| && InBounds(m, i + Kernel[k].0, j + Kernel[k].1) ==>
          low <= CoordsHeight(m, i + Kernel[k].0, j + Kernel[k].1))
    && (low == 256 || exists k :: (0 <= k < |Kernel| && InBounds(m, i + Kernel[k].0, j + Kernel[k].1) &&
          low == CoordsHeight(m, i + Kernel[k].0, j + Kernel[k].1)))
  }

  /** `get_max_neighbour` of the image-atlas module: the height of `(i, j)`
      minus the lowest neighbour, where a neighbour outside the image counts
      as 256 and the fold starts at 256. */
  function MaxNeighbourClamped(m: HeightMap, i: nat, j: nat): (r: int)
    requires Valid(m) && InBounds(m, i, j)
    ensures LowestClamped(m, i, j, CoordsHeight(m, i, j) - r)
  {
    var hs := ClampedHeights(m, i, j, Kernel);
    var low := FoldMin(hs, 256);
    assert low != 256 ==> exists k :: (0 <= k < |Kernel| && InBounds(m, i + Kernel[k].0, j + Kernel[k].1) &&
      low == CoordsHeight(m, i + Kernel[k].0, j + Kernel[k].1)) by {
      if low != 256 {
        var k :| 0 <= k < |hs| && low == hs[k];
        assert hs[k] == ClampedHeight(m, i, j, Kernel[k]);
      }
    }
    CoordsHeight(m, i, j) - low
  }

  /** A pixel is on the border: first or last column or row. */
  predicate OnBorder(m: HeightMap, i: nat, j: nat) {
    i == 0 || j == 0 || i + 1 == m.width || j + 1 == m.height
  }

  /** The border test of the texture module runs `i == 0`, `j == 0`,
      `max_i - 1 == i`, `max_j - 1 == j` in that order, with `u32`
      subtractions; this is when it answers or reaches only in-bounds pixels
      without an underflow. */
  predicate BorderCallable(m: HeightMap, i: nat, j: nat) {
    || i == 0 || j == 0
    || (1 <= m.width && (i + 1 == m.width || (1 <= m.height && (j + 1 == m.height || InBounds(m, i, j)))))
  }

  /** `low` is the least of the heights of the eight neighbours of `(i, j)`,
      all of which lie inside the image. */
  ghost predicate LowestInside(m: HeightMap, i: nat, j: nat, low: int)
    requires Valid(m)
  {
    && (forall k :: 0 <= k < |Kernel| ==> InBounds(m, i + Kernel[k].0, j + Kernel[k].1))
    && (forall k :: 0 <= k < |Kernel| ==> low <= CoordsHeight(m, i + Kernel[k].0, j + Kernel[k].1))
    && (exists k :: 0 <= k < |Kernel| && low == CoordsHeight(m, i + Kernel[k].0, j + Kernel[k].1))
  }

  /** `get_max_neighbour` of the texture module: 200 on the border, else the
      height of `(i, j)` minus the lowest of its eight neighbours, all of
      which lie inside the image. */
  function MaxNeighbourBorder(m: HeightMap, i: nat, j: nat): (r: int)
    requires Valid(m) && BorderCallable(m, i, j)
    ensures OnBorder(m, i, j) ==> r == 200
    ensures !OnBorder(m, i, j) ==> InBounds(m, i, j) && LowestInside(m, i, j, CoordsHeight(m, i, j) - r)
  {
    if i == 0 then 200
    else if j == 0 then 200
    else if m.width - 1 == i then 200
    else if m.height - 1 == j then 200
    else
      InteriorLowest(m, i, j);
      CoordsHeight(m, i, j) - FoldMin(ClampedHeights(m, i, j, Kernel), 256)
  }

  /** Away from the border every neighbour is inside the image, so the fold
      starting at 256 ends on the lowest neighbour. */
  lemma InteriorLowest(m: HeightMap, i: nat, j: nat)
    requires Valid(m) && InBounds(m, i, j) && !OnBorder(m, i, j)
    ensures LowestInside(m, i, j, FoldMin(ClampedHeights(m, i, j, Kernel), 256))
  {
    var hs := ClampedHeights(m, i, j, Kernel);
    var low := FoldMin(hs, 256);
    KernelUnit();
    assert forall k :: 0 <= k < |Kernel| ==> InBounds(m, i + Kernel[k].0, j + Kernel[k].1);
    assert hs[0] == CoordsHeight(m, i + Kernel[0].0, j + Kernel[0].1) <= 51;
    var k :| 0 <= k < |hs| && low == hs[k];
    assert hs[k] == ClampedHeight(m, i, j, Kernel[k]);
  }

  /** Every offset of the kernel moves at most one pixel on each axis. */
  lemma KernelUnit()
    ensures |Kernel| == 8
    ensures forall k :: 0 <= k < |Kernel| ==> -1 <= Kernel[k].0 <= 1 && -1 <= Kernel[k].1 <= 1
  {
  }

  /** Away from the border the two variants agree: no neighbour of an
      interior pixel falls outside the image. */
  lemma VariantsAgreeInside(m: HeightMap, i: nat, j: nat)
    requires Valid(m) && InBounds(m, i, j) && !OnBorder(m, i, j)
    ensures MaxNeighbourBorder(m, i, j) == MaxNeighbourClamped(m, i, j)
  {
  }

  /** A one-pixel image has no neighbour: the slope is the height minus 256. */
  lemma LonePixel(m: HeightMap)
    requires Valid(m) && m.width == 1 && m.height == 1
    ensures MaxNeighbourClamped(m, 0, 0) == CoordsHeight(m, 0, 0) - 256
  {
    var hs := ClampedHeights(m, 0, 0, Kernel);
    assert forall k :: 0 <= k < |hs| ==> hs[k] == 256;
  }
}
