/** The chunk manager: one shared vertex buffer, one index buffer, and a map
    from an object's hash to its chunk `(offset, length)` in the index
    buffer. Adding an object appends its indices and only the vertices the
    buffer does not hold yet; an object whose hash is already mapped is not
    added again. The hash is the caller's: any function of the object. */
module ChunkManagers {
  import opened Wrappers
  import opened Seqs
  import opened VertexIndex

  /** A chunk: offset and length in the index buffer. */
  type Chunk = (nat, nat)

  datatype ChunkManager<T> = ChunkManager(vertices: seq<T>, indices: seq<nat>, chunks: map<nat, Chunk>)

  /** The buffers agree: no vertex is stored twice, every index points into
      the vertex buffer and every chunk lies inside the index buffer. */
  ghost predicate Valid<T>(m: ChunkManager<T>) {
    && NoDup(m.vertices)
    && (forall k :: 0 <= k < |m.indices| ==> m.indices[k] < |m.vertices|)
    && (forall h :: h in m.chunks ==> m.chunks[h].0 + m.chunks[h].1 <= |m.indices|)
  }

  /** The vertices a valid manager holds for the chunk of hash `h`, in the
      order the object produced them. */
  function ChunkVertices<T>(m: ChunkManager<T>, h: nat): (r: seq<T>)
    requires Valid(m) && h in m.chunks
    ensures |r| == m.chunks[h].1
  {
    var (off, len) := m.chunks[h];
    seq(len, k requires 0 <= k < len => m.vertices[m.indices[off + k]])
  }

  /** `ChunkManager::new`: empty buffers and no chunk. */
  function New<T>(): (m: ChunkManager<T>)
    ensures Valid(m)
    ensures m.vertices == [] && m.indices == [] && m.chunks == map[]
  {
    ChunkManager([], [], map[])
  }

  /** `add_chunk` of an object with hash `h` and vertices `ov`. */
  function AddChunk<T(==)>(m: ChunkManager<T>, h: nat, ov: seq<T>): (r: ChunkManager<T>)
    ensures h in m.chunks ==> r == m
    ensures h !in m.chunks ==>
      && |m.vertices| <= |r.vertices| && r.vertices[..|m.vertices|] == m.vertices
      && |r.indices| == |m.indices| + |ov| && r.indices[..|m.indices|] == m.indices
      && (forall k :: 0 <= k < |ov| ==> r.indices[|m.indices| + k] < |r.vertices| && r.vertices[r.indices[|m.indices| + k]] == ov[k])
      && r.chunks == m.chunks[h := (|m.indices|, |ov|)]
  {
    if h in m.chunks then m
    else
      var (vs, ix) := Absorb(m.vertices, ov);
      AbsorbSound(m.vertices, ov);
      assert (m.indices + ix)[..|m.indices|] == m.indices;
      assert forall k :: 0 <= k < |ov| ==> (m.indices + ix)[|m.indices| + k] == ix[k];
      ChunkManager(vs, m.indices + ix, m.chunks[h := (|m.indices|, |ov|)])
  }

  /** The vertex buffer gains exactly the first occurrences of the object's
      vertices that it did not hold. */
  lemma AddChunkFirstOccurrences<T>(m: ChunkManager<T>, h: nat, ov: seq<T>)
    requires Valid(m) && h !in m.chunks
    ensures AddChunk(m, h, ov).vertices == Dedup(m.vertices + ov)
  {
    AbsorbDedup(m.vertices, ov);
  }

  /** The vertex buffer stays free of duplicates. */
  lemma AddChunkNoDup<T>(m: ChunkManager<T>, h: nat, ov: seq<T>)
    requires Valid(m) && h !in m.chunks
    ensures NoDup(AddChunk(m, h, ov).vertices)
  {
    AddChunkFirstOccurrences(m, h, ov);
  }

  /** Adding keeps the manager valid. */
  lemma AddChunkValid<T>(m: ChunkManager<T>, h: nat, ov: seq<T>)
    requires Valid(m)
    ensures Valid(AddChunk(m, h, ov))
  {
    if h !in m.chunks {
      var r := AddChunk(m, h, ov);
      AddChunkNoDup(m, h, ov);
      forall k | 0 <= k < |r.indices| ensures r.indices[k] < |r.vertices| {
        if k < |m.indices| {
          assert r.indices[k] == r.indices[..|m.indices|][k];
        } else {
          var j := k - |m.indices|;
          assert 0 <= j < |ov|;
          var e := ov[j];
          assert r.vertices[r.indices[|m.indices| + j]] == ov[j];
        }
      }
      forall g | g in r.chunks ensures r.chunks[g].0 + r.chunks[g].1 <= |r.indices| {
        if g != h {
          assert r.chunks[g] == m.chunks[g];
        }
      }
    }
  }

  /** The chunk just added reads back as the object's vertices. */
  lemma AddChunkReadsBack<T>(m: ChunkManager<T>, h: nat, ov: seq<T>)
    requires Valid(m) && h !in m.chunks
    ensures Valid(AddChunk(m, h, ov)) && ChunkVertices(AddChunk(m, h, ov), h) == ov
  {
    AddChunkValid(m, h, ov);
    ChunkReadsAs(AddChunk(m, h, ov), h, |m.indices|, ov);
  }

  /** A chunk whose indices point at the vertices of `ov` reads back as `ov`. */
  lemma ChunkReadsAs<T>(r: ChunkManager<T>, h: nat, off: nat, ov: seq<T>)
    requires Valid(r) && h in r.chunks && r.chunks[h] == (off, |ov|)
    requires forall k :: 0 <= k < |ov| ==> off + k < |r.indices| && r.indices[off + k] < |r.vertices| && r.vertices[r.indices[off + k]] == ov[k]
    ensures ChunkVertices(r, h) == ov
  {
  }

  /** Adding an object leaves every chunk already stored reading back the
      same vertices. */
  lemma AddChunkKeepsOthers<T>(m: ChunkManager<T>, h: nat, ov: seq<T>, g: nat)
    requires Valid(m) && g in m.chunks
    ensures Valid(AddChunk(m, h, ov)) && ChunkVertices(AddChunk(m, h, ov), g) == ChunkVertices(m, g)
  {
    AddChunkValid(m, h, ov);
    if h !in m.chunks {
      var r := AddChunk(m, h, ov);
      var (off, len) := m.chunks[g];
      var a, b := ChunkVertices(r, g), ChunkVertices(m, g);
      forall k | 0 <= k < len ensures a[k] == b[k] {
        assert r.indices[off + k] == r.indices[..|m.indices|][off + k];
        assert r.vertices[m.indices[off + k]] == r.vertices[..|m.vertices|][m.indices[off + k]];
      }
    }
  }

  /** The segments of the `add` unit test: a segment's vertices are its two
      end points. */
  function Segment(begin: nat, length: nat): seq<nat> {
    [begin, begin + length]
  }

  /** The first segment `(0, 10)` stores two vertices and two indices. */
  lemma FirstSegment()
    ensures AddChunk(New(), 1, Segment(0, 10)) == ChunkManager([0, 10], [0, 1], map[1 := (0, 2)])
  {
    FirstSegmentAbsorbed();
  }

  lemma FirstSegmentAbsorbed()
    ensures Absorb([], Segment(0, 10)) == ([0, 10], [0, 1])
  {
    var e: seq<nat> := [];
    AbsorbSnoc(e, e, 0);
    assert Absorb(e, e + [0]) == (e + [0], e + [0]);
    AbsorbSnoc(e, [0], 10);
    assert Position([0], 10) == None;
    assert [0] + [10] == Segment(0, 10);
    assert Absorb(e, [0] + [10]) == ([0] + [10], [0] + [1]);
    assert [0] + [1] == [0, 1];
  }

  /** The second segment `(10, 10)` shares the vertex 10: one new vertex. */
  lemma SecondSegment()
    ensures AddChunk(ChunkManager([0, 10], [0, 1], map[1 := (0, 2)]), 2, Segment(10, 10))
         == ChunkManager([0, 10, 20], [0, 1, 1, 2], map[1 := (0, 2), 2 := (2, 2)])
  {
    SecondSegmentAbsorbed();
  }

  lemma SecondSegmentAbsorbed()
    ensures Absorb([0, 10], Segment(10, 10)) == ([0, 10, 20], [1, 2])
  {
    var e: seq<nat> := [];
    var vs: seq<nat> := [0, 10];
    AbsorbSnoc(vs, e, 10);
    assert Position(vs, 10) == Some(1);
    assert Absorb(vs, e + [10]) == (vs, e + [1]);
    assert e + [10] == [10] && e + [1] == [1];
    AbsorbSnoc(vs, [10], 20);
    assert Position(vs, 20) == None;
    assert [10] + [20] == Segment(10, 10);
    assert Absorb(vs, [10] + [20]) == (vs + [20], [1] + [2]);
    assert vs + [20] == [0, 10, 20] && [1] + [2] == [1, 2];
  }

  /** The third segment `(0, 20)` shares both end points: no new vertex. */
  lemma ThirdSegment()
    ensures AddChunk(ChunkManager([0, 10, 20], [0, 1, 1, 2], map[1 := (0, 2), 2 := (2, 2)]), 3, Segment(0, 20))
         == ChunkManager([0, 10, 20], [0, 1, 1, 2, 0, 2], map[1 := (0, 2), 2 := (2, 2), 3 := (4, 2)])
  {
    ThirdSegmentAbsorbed();
  }

  lemma ThirdSegmentAbsorbed()
    ensures Absorb([0, 10, 20], Segment(0, 20)) == ([0, 10, 20], [0, 2])
  {
    var e: seq<nat> := [];
    var vs: seq<nat> := [0, 10, 20];
    AbsorbSnoc(vs, e, 0);
    assert Position(vs, 0) == Some(0);
    assert Absorb(vs, e + [0]) == (vs, e + [0]);
    assert e + [0] == [0];
    AbsorbSnoc(vs, [0], 20);
    assert Position(vs, 20) == Some(2);
    assert [0] + [20] == Segment(0, 20);
    assert Absorb(vs, [0] + [20]) == (vs, [0] + [2]);
    assert [0] + [2] == [0, 2];
  }

  /** The `add` unit test: three segments with distinct hashes leave 2, 3
      and 3 vertices and 2, 4 and 6 indices. */
  lemma SegmentsExample()
    ensures var m1 := AddChunk(New(), 1, Segment(0, 10));
      var m2 := AddChunk(m1, 2, Segment(10, 10));
      var m3 := AddChunk(m2, 3, Segment(0, 20));
      && |m1.vertices| == 2 && |m1.indices| == 2
      && |m2.vertices| == 3 && |m2.indices| == 4
      && |m3.vertices| == 3 && |m3.indices| == 6
  {
    FirstSegment();
    SecondSegment();
    ThirdSegment();
  }
}
