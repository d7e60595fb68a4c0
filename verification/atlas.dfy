/** The texture atlas: all textures of a set pasted into one square grid
    image, saved under a file name that records its layout and read back
    from that name.

    The name is `{name}.{count}_{w}x{h}_{side}x{side}.atlas.png`. Reading it
    searches for the leftmost match of the pattern
    `\w+\.(\d+)_(\d+)x(\d+)_(\d+)x(\d+)\.atlas.\w+` and parses groups 1 to 4;
    group 5 is matched but ignored. Texture `k` of a `side x side` grid goes
    to column `k / side` and row `k % side`. Characters are ASCII: `\w` is
    `[A-Za-z0-9_]` and `\d` is `[0-9]`. */
module TextureAtlas {
  import opened Wrappers

  // ---------------------------------------------------------------------
  // Decimal numbers

  predicate IsDigitChar(c: char) {
    '0' <= c <= '9'
  }

  predicate IsWordChar(c: char) {
    'a' <= c <= 'z' || 'A' <= c <= 'Z' || IsDigitChar(c) || c == '_'
  }

  predicate AllDigits(s: string) {
    forall k :: 0 <= k < |s| ==> IsDigitChar(s[k])
  }

  /** A non-empty run of decimal digits. */
  predicate IsDigits(s: string) {
    |s| > 0 && AllDigits(s)
  }

  /** A non-empty run of word characters. */
  predicate IsWord(s: string) {
    |s| > 0 && forall k :: 0 <= k < |s| ==> IsWordChar(s[k])
  }

  function DigitChar(d: nat): (c: char)
    requires d < 10
    ensures IsDigitChar(c) && c as int - '0' as int == d
  {
    ('0' as int + d) as char
  }

  /** The value of a decimal digit. */
  function DigitValue(c: char): (d: nat)
    requires IsDigitChar(c)
    ensures d < 10 && DigitChar(d) == c
  {
    c as int - '0' as int
  }

  /** `parse::<usize>` of a digit run: its decimal value. */
  function ParseDigits(s: string): nat
    requires AllDigits(s)
  {
    if s == [] then 0
    else ParseDigits(s[..|s| - 1]) * 10 + DigitValue(s[|s| - 1])
  }

  /** `{}` of a number: its decimal digits, without leading zeros. Parsing
      them gives the number back. */
  function NatToString(n: nat): (s: string)
    ensures IsDigits(s)
    ensures s[0] != '0' || s == "0"
    ensures ParseDigits(s) == n
  {
    if n < 10 then [DigitChar(n)]
    else
      var p := NatToString(n / 10);
      var s := p + [DigitChar(n % 10)];
      assert s[..|s| - 1] == p;
      s
  }

  // ---------------------------------------------------------------------
  // The file-name pattern

  /** The length of the longest prefix of `s` whose characters satisfy `f`. */
  function SpanWhile(s: string, f: char -> bool): (n: nat)
    ensures n <= |s|
    ensures forall k :: 0 <= k < n ==> f(s[k])
    ensures n == |s| || !f(s[n])
  {
    if s == [] || !f(s[0]) then 0
    else 1 + SpanWhile(s[1..], f)
  }

  /** `(\d+)c` at the start of `s`: the digits and what follows `c`. A digit
      run cannot give back characters to let `c` match, so the greedy run is
      the only candidate. */
  function DigitsThen(s: string, c: char): (r: Option<(string, string)>)
    ensures r.Some? ==> IsDigits(r.value.0) && s == r.value.0 + [c] + r.value.1
  {
    var n := SpanWhile(s, IsDigitChar);
    if n == 0 || n == |s| || s[n] != c then None
    else
      assert s == s[..n] + [c] + s[n + 1..];
      Some((s[..n], s[n + 1..]))
  }

  /** The separators after the five digit groups of the pattern. */
  const Separators: string := "_x_x."

  /** `(\d+)c` for each separator `c` of `seps` in turn: the digit groups and
      what follows the last separator. */
  function DigitGroups(s: string, seps: string): (r: Option<(seq<string>, string)>)
    ensures r.Some? ==> |r.value.0| == |seps|
    ensures r.Some? ==> forall k :: 0 <= k < |seps| ==> IsDigits(r.value.0[k])
    decreases |seps|
  {
    if seps == [] then Some(([], s))
    else
      match DigitsThen(s, seps[0])
      case None => None
      case Some((d, rest)) =>
        match DigitGroups(rest, seps[1..])
        case None => None
        case Some((ds, tail)) => Some(([d] + ds, tail))
  }

  /** The digit runs `ds` separated by `seps`, followed by `rest`. */
  function Render(ds: seq<string>, seps: string, rest: string): string
    requires |ds| == |seps|
    decreases |seps|
  {
    if seps == [] then rest
    else ds[0] + ([seps[0]] + Render(ds[1..], seps[1..], rest))
  }

  /** The end of the pattern, `atlas`, any character but a line feed and a
      word character, at the start of `s`. */
  predicate TailMatches(s: string) {
    |s| >= 7 && s[..5] == "atlas" && s[5] != '\n' && IsWordChar(s[6])
  }

  /** The pattern anchored at the start of `s`: a word, `.`, the five groups
      with their separators, `.atlas`, any character but a line feed and a
      word character. */
  function MatchPrefix(s: string): (r: Option<seq<string>>)
    ensures r.Some? ==> |r.value| == 5 && forall k :: 0 <= k < 5 ==> IsDigits(r.value[k])
  {
    var n := SpanWhile(s, IsWordChar);
    if n == 0 || n == |s| || s[n] != '.' then None
    else
      match DigitGroups(s[n + 1..], Separators)
      case None => None
      case Some((ds, tail)) => if TailMatches(tail) then Some(ds) else None
  }

  /** `captures` from position `i` on: the leftmost position where the
      pattern matches, with its groups, or `None` when it matches nowhere. */
  function SearchFrom(s: string, i: nat): (r: Option<(nat, seq<string>)>)
    requires i <= |s|
    ensures r.Some? ==> i <= r.value.0 <= |s| && MatchPrefix(s[r.value.0..]) == Some(r.value.1)
    ensures r.Some? ==> forall j :: i <= j < r.value.0 ==> MatchPrefix(s[j..]).None?
    ensures r.None? ==> forall j :: i <= j <= |s| ==> MatchPrefix(s[j..]).None?
    decreases |s| - i
  {
    var m := MatchPrefix(s[i..]);
    if m.Some? then Some((i, m.value))
    else if i == |s| then None
    else
      assert forall j :: i <= j < i + 1 ==> s[j..] == s[i..];
      SearchFrom(s, i + 1)
  }

  // ---------------------------------------------------------------------
  // Saving and loading

  /** The layout an atlas records. */
  datatype AtlasParams = AtlasParams(count: nat, texW: nat, texH: nat, side: nat)

  /** An atlas: its layout and the dimensions of its image. */
  datatype Atlas = Atlas(params: AtlasParams, imageW: nat, imageH: nat)

  datatype AtlasError = DimensionMismatch | NoMatch | NoImages | MixedSizes

  /** The file name `name.d1_d2xd3_d4xd5.atlas.ext` of the digit runs `ds`. */
  function FileName(name: string, ds: seq<string>, ext: string): string
    requires |ds| == |Separators|
  {
    name + ("." + Render(ds, Separators, "atlas." + ext))
  }

  /** `save`: the image must be `side` textures wide and high, then the file
      is named after the layout. */
  function SaveName(a: Atlas, name: string): (r: Result<string, AtlasError>)
    ensures r.Failure? <==> a.imageW != a.params.texW * a.params.side || a.imageH != a.params.texH * a.params.side
    ensures r.Failure? ==> r.error == DimensionMismatch
  {
    var p := a.params;
    if a.imageW != p.texW * p.side then Failure(DimensionMismatch)
    else if a.imageH != p.texH * p.side then Failure(DimensionMismatch)
    else
      var side := NatToString(p.side);
      Success(FileName(name, [NatToString(p.count), NatToString(p.texW), NatToString(p.texH), side, side], "png"))
  }

  /** `from_file` on a file name: the values of groups 1 to 4 of the leftmost
      match, or `NoMatch` when the pattern matches nowhere. */
  function FromFileName(fileName: string): (r: Result<AtlasParams, AtlasError>)
    ensures r.Failure? <==> forall j :: 0 <= j <= |fileName| ==> MatchPrefix(fileName[j..]).None?
    ensures r.Failure? ==> r.error == NoMatch
    ensures r.Success? ==>
      exists j :: && 0 <= j <= |fileName| && MatchPrefix(fileName[j..]).Some?
                  && (forall i :: 0 <= i < j ==> MatchPrefix(fileName[i..]).None?)
                  && r.value == ParamsOf(MatchPrefix(fileName[j..]).value)
  {
    match SearchFrom(fileName, 0)
    case None => Failure(NoMatch)
    case Some((_, g)) => Success(ParamsOf(g))
  }

  /** A prefix of characters satisfying `f` followed by one that does not is
      exactly the span. */
  lemma {:induction false} SpanOfPrefix(p: string, q: string, f: char -> bool)
    requires forall k :: 0 <= k < |p| ==> f(p[k])
    requires |q| > 0 && !f(q[0])
    ensures SpanWhile(p + q, f) == |p|
  {
    if p != [] {
      assert (p + q)[1..] == p[1..] + q;
      SpanOfPrefix(p[1..], q, f);
    }
  }

  /** `(\d+)c` on digits followed by `c`. */
  lemma DigitsThenOf(d: string, c: char, rest: string)
    requires IsDigits(d) && !IsDigitChar(c)
    ensures DigitsThen(d + ([c] + rest), c) == Some((d, rest))
  {
    var s := d + ([c] + rest);
    SpanOfPrefix(d, [c] + rest, IsDigitChar);
    assert s[..|d|] == d && s[|d|] == c && s[|d| + 1..] == rest;
  }

  /** Digit runs rendered with non-digit separators are read back as the
      same runs. */
  lemma {:induction false} DigitGroupsOfRender(ds: seq<string>, seps: string, rest: string)
    requires |ds| == |seps|
    requires forall k :: 0 <= k < |ds| ==> IsDigits(ds[k]) && !IsDigitChar(seps[k])
    ensures DigitGroups(Render(ds, seps, rest), seps) == Some((ds, rest))
    decreases |seps|
  {
    if seps != [] {
      var tail := Render(ds[1..], seps[1..], rest);
      DigitsThenOf(ds[0], seps[0], tail);
      DigitGroupsOfRender(ds[1..], seps[1..], rest);
      assert [ds[0]] + ds[1..] == ds;
    }
  }

  /** A well-formed name matches at its start, with its digit runs as the
      groups. */
  lemma MatchFileName(name: string, ds: seq<string>, ext: string)
    requires IsWord(name) && IsWord(ext)
    requires |ds| == |Separators| && forall k :: 0 <= k < |ds| ==> IsDigits(ds[k])
    ensures MatchPrefix(FileName(name, ds, ext)) == Some(ds)
  {
    var r0 := Render(ds, Separators, "atlas." + ext);
    var s := name + ("." + r0);
    SpanOfPrefix(name, "." + r0, IsWordChar);
    assert s[|name|] == '.' && s[|name| + 1..] == r0;
    DigitGroupsOfRender(ds, Separators, "atlas." + ext);
    assert TailMatches("atlas." + ext);
  }

  /** The layout groups 1 to 4 of a match spell. */
  function ParamsOf(ds: seq<string>): AtlasParams
    requires |ds| == 5 && forall k :: 0 <= k < 5 ==> IsDigits(ds[k])
  {
    assert IsDigits(ds[0]) && IsDigits(ds[1]) && IsDigits(ds[2]) && IsDigits(ds[3]);
    AtlasParams(ParseDigits(ds[0]), ParseDigits(ds[1]), ParseDigits(ds[2]), ParseDigits(ds[3]))
  }

  /** Reading a well-formed name gives the values of groups 1 to 4, whatever
      group 5 says. */
  lemma ParseFileName(name: string, ds: seq<string>, ext: string)
    requires IsWord(name) && IsWord(ext)
    requires |ds| == 5 && forall k :: 0 <= k < 5 ==> IsDigits(ds[k])
    ensures FromFileName(FileName(name, ds, ext)) == Success(ParamsOf(ds))
  {
    MatchFileName(name, ds, ext);
  }

  /** Round trip: the name `save` gives a word-named atlas reads back as its
      layout. */
  lemma SaveThenLoad(a: Atlas, name: string)
    requires IsWord(name)
    requires SaveName(a, name).Success?
    ensures FromFileName(SaveName(a, name).value) == Success(a.params)
  {
    var p := a.params;
    var side := NatToString(p.side);
    ParseFileName(name, [NatToString(p.count), NatToString(p.texW), NatToString(p.texH), side, side], "png");
  }

  /** The names of the atlas unit tests: `n` textures of `750 x 750` on a
      `side x side` grid. */
  function TestName(prefix: string, n: string, side: string): string {
    FileName(prefix, [n, "750", "750", side, side], "png")
  }

  lemma ParseSevenFifty()
    ensures ParseDigits("750") == 750
  {
    assert "750"[..2] == "75" && "75"[..1] == "7" && "7"[..0] == "";
  }

  lemma ParseTwentyFive()
    ensures ParseDigits("25") == 25
  {
    assert "25"[..1] == "2" && "2"[..0] == "";
  }

  /** The names of the three atlas unit tests have the unit-test form. */
  lemma TestNameOneSpelled()
    ensures TestName("atlas1", "1", "1") == "atlas1.1_750x750_1x1.atlas.png"
  {
  }

  lemma TestNameTwoSpelled()
    ensures TestName("atlas2", "2", "2") == "atlas2.2_750x750_2x2.atlas.png"
  {
  }

  lemma TestNameThreeSpelled()
    ensures TestName("atlas3", "25", "5") == "atlas3.25_750x750_5x5.atlas.png"
  {
  }

  /** A unit-test name reads back as `n` textures of `750 x 750` on a
      `side x side` grid (with the spelled lemmas above and the digit values
      of `750` and `25`, this covers the three unit-test names). */
  lemma TestNameParses(prefix: string, n: string, side: string)
    requires IsWord(prefix) && IsDigits(n) && IsDigits(side)
    ensures FromFileName(TestName(prefix, n, side)) == Success(AtlasParams(ParseDigits(n), 750, 750, ParseDigits(side)))
  {
    ParseSevenFifty();
    ParseFileName(prefix, [n, "750", "750", side, side], "png");
  }

  /** The third unit-test name reads back as 25 textures of `750 x 750` on
      a `5 x 5` grid. */
  lemma ThirdTestNameReadsBack(f: string)
    requires f == TestName("atlas3", "25", "5")
    ensures FromFileName(f) == Success(AtlasParams(25, 750, 750, 5))
  {
    TestNameParses("atlas3", "25", "5");
    ParseTwentyFive();
    assert ParseDigits("5") == 5;
  }

  /** A file name without a `.` has no layout: reading it fails. */
  lemma NoDotFails(fileName: string)
    requires forall k :: 0 <= k < |fileName| ==> fileName[k] != '.'
    ensures FromFileName(fileName) == Failure(NoMatch)
  {
    forall j | 0 <= j <= |fileName| ensures MatchPrefix(fileName[j..]).None? {
      var t := fileName[j..];
      var n := SpanWhile(t, IsWordChar);
      assert n < |t| ==> t[n] == fileName[j + n];
    }
  }

  // ---------------------------------------------------------------------
  // The grid layout

  /** `(n as f32).sqrt().ceil()`, idealised: the least `s` with `s * s >= n`. */
  function CeilSqrt(n: nat): (s: nat)
    ensures s * s >= n
    ensures s == 0 || (s - 1) * (s - 1) < n
  {
    CeilSqrtFrom(n, 0)
  }

  function CeilSqrtFrom(n: nat, s: nat): (r: nat)
    requires s == 0 || (s - 1) * (s - 1) < n
    ensures r * r >= n
    ensures r == 0 || (r - 1) * (r - 1) < n
    decreases n - s
  {
    if s * s >= n then s
    else
      assert s <= s * s || s == 0;
      CeilSqrtFrom(n, s + 1)
  }

  /** The origin of cell `k` in a `side x side` grid of `tw x th` cells:
      column `k / side`, row `k % side`. */
  function CellOrigin(k: nat, side: nat, tw: nat, th: nat): (r: (nat, nat))
    requires side > 0
    ensures tw > 0 && th > 0 ==> (r.0 / tw) * side + r.1 / th == k
    ensures r.1 + th <= side * th
    ensures k < side * side ==> r.0 + tw <= side * tw
  {
    var r := ((k / side) * tw, (k % side) * th);
    CellOriginFacts(k, side, tw, th, r);
    r
  }

  /** The column and row of cell `k` bring back `k`, and both fit the grid. */
  lemma CellOriginFacts(k: nat, side: nat, tw: nat, th: nat, r: (nat, nat))
    requires side > 0 && r == ((k / side) * tw, (k % side) * th)
    ensures tw > 0 && th > 0 ==> (r.0 / tw) * side + r.1 / th == k
    ensures r.1 + th <= side * th
    ensures k < side * side ==> r.0 + tw <= side * tw
  {
    var c, w := k / side, k % side;
    if tw > 0 && th > 0 {
      ScaleBack(c, tw);
      ScaleBack(w, th);
    }
    Separated(w, side, th);
    if k < side * side {
      ColumnInGrid(k, side);
      Separated(c, side, tw);
    }
  }

  /** Scaling by a positive step and dividing by it again is the identity. */
  lemma ScaleBack(c: nat, t: nat)
    requires t > 0
    ensures c * t / t == c
  {
    DivModOfCell(c, 0, t);
  }

  /** A cell of a `side x side` grid lies in a column below `side`. */
  lemma ColumnInGrid(k: nat, side: nat)
    requires side > 0 && k < side * side
    ensures k / side < side
  {
    var c := k / side;
    if c >= side {
      Separated(side - 1, c, side);
      assert false;
    }
  }

  function Min(a: nat, b: nat): nat {
    if a <= b then a else b
  }

  /** The cells the layout loop fills: one per texture, until the grid is
      full. */
  function Cells(n: nat, side: nat, tw: nat, th: nat): (r: seq<(nat, nat)>)
    requires side > 0
    ensures |r| == Min(n, side * side)
  {
    seq(Min(n, side * side), k requires 0 <= k => CellOrigin(k, side, tw, th))
  }

  /** `a < b` cells apart leave room for a whole cell between their origins. */
  lemma {:induction false} Separated(a: nat, b: nat, w: nat)
    requires a < b
    ensures a * w + w <= b * w
    decreases b - a
  {
    assert (b - 1) * w + w == b * w;
    if a < b - 1 {
      Separated(a, b - 1, w);
    }
  }

  /** `i * side + j` with `j < side` is column `i`, row `j`. */
  lemma DivModOfCell(i: nat, j: nat, side: nat)
    requires j < side
    ensures (i * side + j) / side == i && (i * side + j) % side == j
  {
    var k := i * side + j;
    var q, r := k / side, k % side;
    assert q * side + r == i * side + j;
    if q < i {
      Separated(q, i, side);
    } else if i < q {
      Separated(i, q, side);
    }
  }

  /** The nested loops of `generate_atlas`: columns `i`, rows `j`, one cell
      per texture, stopping as soon as the last texture is placed. The first
      cell is filled before the check, so there is at least one texture. */
  method Layout(n: nat, side: nat, tw: nat, th: nat) returns (cells: seq<(nat, nat)>)
    requires n >= 1 && side > 0
    ensures cells == Cells(n, side, tw, th)
  {
    cells := [];
    var count := 0;
    var i := 0;
    while i < side
      invariant 0 <= i <= side
      invariant count == |cells| == i * side && count < n
      invariant forall k :: 0 <= k < |cells| ==> cells[k] == CellOrigin(k, side, tw, th)
    {
      var j := 0;
      while j < side
        invariant 0 <= j <= side
        invariant count == |cells| == i * side + j && count < n
        invariant forall k :: 0 <= k < |cells| ==> cells[k] == CellOrigin(k, side, tw, th)
      {
        DivModOfCell(i, j, side);
        cells := cells + [(i * tw, j * th)];
        count := count + 1;
        j := j + 1;
        if count >= n {
          break;
        }
      }
      if count >= n {
        Separated(i, side, side);
        break;
      }
      assert count == (i + 1) * side;
      i := i + 1;
    }
  }

  /** Cells lie inside the atlas image. */
  lemma CellInside(k: nat, side: nat, tw: nat, th: nat)
    requires side > 0 && k < side * side
    ensures CellOrigin(k, side, tw, th).0 + tw <= side * tw
    ensures CellOrigin(k, side, tw, th).1 + th <= side * th
  {
    var c, r := k / side, k % side;
    assert k == c * side + r;
    if c >= side {
      if c > side {
        Separated(side, c, side);
      }
      assert false;
    }
    Separated(c, side, tw);
    Separated(r, side, th);
  }

  /** Two different cells do not overlap (for non-empty textures). */
  lemma CellsDisjoint(k: nat, l: nat, side: nat, tw: nat, th: nat)
    requires side > 0 && tw > 0 && th > 0 && k != l
    ensures var (x1, y1) := CellOrigin(k, side, tw, th);
      var (x2, y2) := CellOrigin(l, side, tw, th);
      x1 + tw <= x2 || x2 + tw <= x1 || y1 + th <= y2 || y2 + th <= y1
  {
    var c1, r1, c2, r2 := k / side, k % side, l / side, l % side;
    assert k == c1 * side + r1 && l == c2 * side + r2;
    if c1 < c2 {
      Separated(c1, c2, tw);
    } else if c2 < c1 {
      Separated(c2, c1, tw);
    } else if r1 < r2 {
      Separated(r1, r2, th);
    } else {
      assert r2 < r1;
      Separated(r2, r1, th);
    }
  }

  /** All textures have the size of the first. */
  predicate SameSize(dims: seq<(nat, nat)>)
    requires |dims| > 0
  {
    forall k :: 0 <= k < |dims| ==> dims[k] == dims[0]
  }

  /** The name an atlas of consistent dimensions is saved under; it reads
      back as the layout when the set name is a word. */
  function GeneratedName(a: Atlas, name: string): (f: string)
    requires a.imageW == a.params.texW * a.params.side && a.imageH == a.params.texH * a.params.side
    ensures SaveName(a, name) == Success(f)
    ensures IsWord(name) ==> FromFileName(f) == Success(a.params)
  {
    SaveThenLoadIfWord(a, name);
    SaveName(a, name).value
  }

  /** `SaveThenLoad` as an implication, for use inside expressions. */
  lemma SaveThenLoadIfWord(a: Atlas, name: string)
    requires SaveName(a, name).Success?
    ensures IsWord(name) ==> FromFileName(SaveName(a, name).value) == Success(a.params)
  {
    if IsWord(name) {
      SaveThenLoad(a, name);
    }
  }

  /** What `generate_atlas` builds: the atlas, the cell of each texture and
      the file name it is saved under. */
  datatype Generated = Generated(atlas: Atlas, cells: seq<(nat, nat)>, fileName: string)

  /** `generate_atlas` on textures of sizes `dims`: no textures and mixed
      sizes are errors; otherwise the grid is the least square holding every
      texture, each texture has its own cell, and the saved name reads back
      as the layout. */
  method GenerateAtlas(name: string, dims: seq<(nat, nat)>) returns (r: Result<Generated, AtlasError>)
    ensures dims == [] ==> r == Failure(NoImages)
    ensures dims != [] && !SameSize(dims) ==> r == Failure(MixedSizes)
    ensures dims != [] && SameSize(dims) ==> r.Success?
    ensures r.Success? ==>
      var g := r.value;
      var p := g.atlas.params;
      && dims != []
      && p == AtlasParams(|dims|, dims[0].0, dims[0].1, CeilSqrt(|dims|))
      && p.side * p.side >= p.count
      && g.atlas.imageW == p.texW * p.side && g.atlas.imageH == p.texH * p.side
      && |g.cells| == |dims|
      && (forall k :: 0 <= k < |dims| ==> g.cells[k] == CellOrigin(k, p.side, p.texW, p.texH))
      && SaveName(g.atlas, name) == Success(g.fileName)
      && (IsWord(name) ==> FromFileName(g.fileName) == Success(p))
  {
    if dims == [] {
      return Failure(NoImages);
    }
    var n := |dims|;
    var side := CeilSqrt(n);
    var (tw, th) := dims[0];
    if !SameSize(dims) {
      return Failure(MixedSizes);
    }
    var cells := Layout(n, side, tw, th);
    var atlas := Atlas(AtlasParams(n, tw, th, side), tw * side, th * side);
    var fileName := GeneratedName(atlas, name);
    r := Success(Generated(atlas, cells, fileName));
  }
}
