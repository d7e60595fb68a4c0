/** Turning a vertex list into unique vertices plus an index list.

    Each input vertex is looked up among the vertices kept so far; the first
    equal one supplies its index, and a vertex seen for the first time is
    appended and indexed at the end. The kept vertices are the first
    occurrences of the input, in input order. */
module VertexIndex {
  import opened Wrappers
  import opened Seqs

  /** The reference: the distinct elements of `s` in order of first
      occurrence. */
  function Dedup<T(==)>(s: seq<T>): (r: seq<T>)
    ensures NoDup(r)
    ensures forall k :: 0 <= k < |r| ==> r[k] in s
    ensures forall k :: 0 <= k < |s| ==> s[k] in r
  {
    if s == [] then []
    else
      var d := Dedup(s[..|s| - 1]);
      var x := s[|s| - 1];
      assert forall k :: 0 <= k < |s| - 1 ==> s[k] == s[..|s| - 1][k];
      if x in d then d else d + [x]
  }

  /** The first occurrences are exactly as many as the distinct elements. */
  lemma DedupCount<T>(s: seq<T>)
    ensures |Dedup(s)| == |set x | x in s|
  {
    var d := Dedup(s);
    NoDupCardinality(d);
    assert (set x | x in d) == (set x | x in s) by {
      forall x | x in s ensures x in d {
        var k :| 0 <= k < |s| && s[k] == x;
      }
      forall x | x in d ensures x in s {
        var k :| 0 <= k < |d| && d[k] == x;
      }
    }
  }

  /** A duplicate-free sequence is its own first occurrences. */
  lemma {:induction false} DedupOfNoDup<T>(s: seq<T>)
    requires NoDup(s)
    ensures Dedup(s) == s
  {
    if s != [] {
      var init, x := s[..|s| - 1], s[|s| - 1];
      assert NoDup(init);
      DedupOfNoDup(init);
      assert x !in init by {
        forall i | 0 <= i < |init| ensures init[i] != x {
          assert s[i] != s[|s| - 1];
        }
      }
      assert init + [x] == s;
    }
  }

  /** Appending elements never disturbs the first occurrences already seen:
      `Dedup(s)` is a prefix of `Dedup(s + t)`. */
  lemma {:induction false} DedupPrefix<T>(s: seq<T>, t: seq<T>)
    ensures |Dedup(s)| <= |Dedup(s + t)| && Dedup(s + t)[..|Dedup(s)|] == Dedup(s)
    decreases |t|
  {
    if t == [] {
      assert s + t == s;
    } else {
      var t', x := t[..|t| - 1], t[|t| - 1];
      DedupPrefix(s, t');
      assert (s + t)[..|s + t| - 1] == s + t';
      assert (s + t)[|s + t| - 1] == x;
      var d, d' := Dedup(s + t'), Dedup(s + t);
      assert d' == d || d' == d + [x];
      if d' == d + [x] {
        assert d'[..|d|] == d;
        assert d'[..|Dedup(s)|] == d[..|Dedup(s)|];
      }
    }
  }

  /** The first occurrences come in the order the input first shows them:
      an element kept earlier first occurs earlier. */
  lemma {:induction false} DedupOrder<T>(s: seq<T>, i: nat, j: nat)
    requires i < j < |Dedup(s)|
    ensures Position(s, Dedup(s)[i]).Some? && Position(s, Dedup(s)[j]).Some?
    ensures Position(s, Dedup(s)[i]).value < Position(s, Dedup(s)[j]).value
  {
    var d := Dedup(s);
    var init, x := s[..|s| - 1], s[|s| - 1];
    var d0 := Dedup(init);
    assert s == init + [x];
    PositionPrefix(init, [x], d[i]);
    if j < |d0| {
      assert d == d0 || d == d0 + [x];
      assert d[i] == d0[i] && d[j] == d0[j];
      DedupOrder(init, i, j);
      PositionPrefix(init, [x], d[j]);
    } else {
      assert d == d0 + [x] && d[j] == x && x !in d0;
      assert d[i] == d0[i] && d0[i] in init;
      assert x !in init;
      assert Position(s, x) == Some(|init|) by {
        PositionAppendFresh(init, x);
      }
    }
  }

  /** Looking in a longer sequence finds an element of the prefix at the
      same place. */
  lemma {:induction false} PositionPrefix<T>(s: seq<T>, t: seq<T>, v: T)
    requires v in s
    ensures Position(s + t, v) == Position(s, v)
  {
    if s[0] != v {
      assert (s + t)[1..] == s[1..] + t;
      PositionPrefix(s[1..], t, v);
    }
  }

  /** An element missing from `s` is found right after it. */
  lemma {:induction false} PositionAppendFresh<T>(s: seq<T>, v: T)
    requires v !in s
    ensures Position(s + [v], v) == Some(|s|)
  {
    if s != [] {
      assert (s + [v])[1..] == s[1..] + [v];
      PositionAppendFresh(s[1..], v);
    }
  }

  /** Feeds `input` through the lookup, starting from the kept vertices `vs`:
      the vertices after the last input and the index of each input. A
      vertex already kept is indexed at its first equal; a new one is
      appended and indexed at the end. */
  function Absorb<T(==)>(vs: seq<T>, input: seq<T>): (r: (seq<T>, seq<nat>))
    ensures |r.1| == |input|
  {
    if input == [] then (vs, [])
    else
      var (v1, i1) := Absorb(vs, input[..|input| - 1]);
      var x := input[|input| - 1];
      match Position(v1, x)
      case Some(p) => (v1, i1 + [p])
      case None => (v1 + [x], i1 + [|v1|])
  }

  /** The kept vertices only grow at the end, each index points at a vertex
      equal to its input, and when `vs` has no duplicates the kept vertices
      are the first occurrences of `vs + input`. */
  lemma AbsorbSound<T>(vs: seq<T>, input: seq<T>)
    ensures var r := Absorb(vs, input);
      && |vs| <= |r.0| && r.0[..|vs|] == vs
      && (forall k :: 0 <= k < |input| ==> r.1[k] < |r.0| && r.0[r.1[k]] == input[k])
      && (NoDup(vs) ==> r.0 == Dedup(vs + input))
  {
    AbsorbGrows(vs, input);
    AbsorbIndexes(vs, input);
    if NoDup(vs) {
      AbsorbDedup(vs, input);
    }
  }

  /** The kept vertices only grow at the end. */
  lemma {:induction false} AbsorbGrows<T>(vs: seq<T>, input: seq<T>)
    ensures |vs| <= |Absorb(vs, input).0| && Absorb(vs, input).0[..|vs|] == vs
  {
    if input != [] {
      var init := input[..|input| - 1];
      AbsorbGrows(vs, init);
      var v1 := Absorb(vs, init).0;
      assert (v1 + [input[|input| - 1]])[..|vs|] == v1[..|vs|];
    }
  }

  /** Each index points at a kept vertex equal to its input. */
  lemma {:induction false} AbsorbIndexes<T>(vs: seq<T>, input: seq<T>)
    ensures var r := Absorb(vs, input);
      forall k :: 0 <= k < |input| ==> r.1[k] < |r.0| && r.0[r.1[k]] == input[k]
  {
    if input != [] {
      var init, x := input[..|input| - 1], input[|input| - 1];
      AbsorbIndexes(vs, init);
      var (v1, i1) := Absorb(vs, init);
      var r := Absorb(vs, input);
      assert |r.0| >= |v1| && r.0[..|v1|] == v1;
      assert r.1[..|init|] == i1;
      forall k | 0 <= k < |input| ensures r.1[k] < |r.0| && r.0[r.1[k]] == input[k] {
        if k < |init| {
          assert r.1[k] == i1[k] && input[k] == init[k];
          assert r.0[i1[k]] == r.0[..|v1|][i1[k]];
        }
      }
    }
  }

  /** When `vs` has no duplicates the kept vertices are the first
      occurrences of `vs + input`. */
  lemma {:induction false} AbsorbDedup<T>(vs: seq<T>, input: seq<T>)
    requires NoDup(vs)
    ensures Absorb(vs, input).0 == Dedup(vs + input)
  {
    if input == [] {
      assert vs + input == vs;
      DedupOfNoDup(vs);
    } else {
      var init, x := input[..|input| - 1], input[|input| - 1];
      AbsorbDedup(vs, init);
      assert (vs + input)[..|vs + input| - 1] == vs + init;
      assert (vs + input)[|vs + input| - 1] == x;
    }
  }

  /** One more input extends `Absorb` by one lookup. */
  lemma AbsorbSnoc<T>(vs: seq<T>, input: seq<T>, x: T)
    ensures var (v1, i1) := Absorb(vs, input);
      Absorb(vs, input + [x]) ==
        match Position(v1, x)
        case Some(p) => (v1, i1 + [p])
        case None => (v1 + [x], i1 + [|v1|])
  {
    assert (input + [x])[..|input|] == input;
  }

  /** `index_vertex_list`: one pass over the input, looking each vertex up
      among those kept so far. Returns the first occurrences of the input and,
      for every input, the index of its equal vertex. */
  method IndexVertexList<T(==)>(input: seq<T>) returns (vertices: seq<T>, indices: seq<nat>)
    ensures |indices| == |input|
    ensures forall k :: 0 <= k < |input| ==> indices[k] < |vertices| && vertices[indices[k]] == input[k]
    ensures NoDup(vertices)
    ensures vertices == Dedup(input)
    ensures |vertices| == |set x | x in input|
  {
    DedupCount(input);
    vertices, indices := [], [];
    var i := 0;
    while i < |input|
      invariant 0 <= i <= |input|
      invariant vertices == Absorb([], input[..i]).0 && indices == Absorb([], input[..i]).1
    {
      var v := input[i];
      AbsorbSnoc([], input[..i], v);
      assert input[..i + 1] == input[..i] + [v];
      var pos := Position(vertices, v);
      match pos {
        case None =>
          indices := indices + [|vertices|];
          vertices := vertices + [v];
        case Some(x) =>
          indices := indices + [x];
      }
      i := i + 1;
    }
    assert input[..i] == input && [] + input == input;
    assert NoDup<T>([]);
    AbsorbSound([], input);
  }

  /** The eight corners of the unit test: four distinct points, each twice. */
  function TestPoints(): seq<(real, real, real)> {
    var p := [(0.0, 0.0, 0.0), (1.0, 0.0, 0.0), (0.0, 2.0, 0.0), (0.0, 0.0, 3.0)];
    p + p
  }

  /** The second copy of the points adds no vertex. */
  lemma TestPointsDedup()
    ensures Dedup(TestPoints()) == TestPoints()[..4]
  {
    var p := TestPoints()[..4];
    assert NoDup(p);
    DedupOfNoDup(p);
    assert forall k :: 4 <= k < 8 ==> TestPoints()[k] in p;
    RepeatsAddNothing(p, TestPoints()[4..]);
    assert p + TestPoints()[4..] == TestPoints();
  }

  /** Appending elements that were already seen leaves the first occurrences
      unchanged. */
  lemma {:induction false} RepeatsAddNothing<T>(s: seq<T>, t: seq<T>)
    requires forall k :: 0 <= k < |t| ==> t[k] in s
    ensures Dedup(s + t) == Dedup(s)
    decreases |t|
  {
    if t == [] {
      assert s + t == s;
    } else {
      var t', x := t[..|t| - 1], t[|t| - 1];
      RepeatsAddNothing(s, t');
      assert (s + t)[..|s + t| - 1] == s + t';
      assert (s + t)[|s + t| - 1] == x;
      assert x in Dedup(s + t');
    }
  }

  /** The `index_vertices` unit test: eight vertices, four of them distinct,
      give four vertices and eight indices. */
  method IndexVerticesExample() returns (vertexCount: nat, indexCount: nat)
    ensures vertexCount == 4 && indexCount == 8
  {
    var vertices, indices := IndexVertexList(TestPoints());
    TestPointsDedup();
    vertexCount, indexCount := |vertices|, |indices|;
  }
}
