/** Sequence helpers: the iterator adaptors the Rust code leans on
    (`filter`, `position`, `push`, `append`), stated once. */
module Seqs {
  import opened Wrappers

  /** `a` can be obtained from `b` by deleting elements: it keeps `b`'s order. */
  ghost predicate Subsequence<T>(a: seq<T>, b: seq<T>)
    decreases |b|
  {
    if a == [] then true
    else if b == [] then false
    else (a[0] == b[0] && Subsequence(a[1..], b[1..])) || Subsequence(a, b[1..])
  }

  /** No element occurs twice. */
  ghost predicate NoDup<T>(s: seq<T>) {
    forall i, j :: 0 <= i < j < |s| ==> s[i] != s[j]
  }

  /** Splits `s` into the elements that satisfy `p` and those that do not,
      each in the order of `s`: the pair of `iter().filter(p)` and
      `iter().filter(!p)` that the pipeline runner builds. */
  function Partition<T>(s: seq<T>, p: T -> bool): (r: (seq<T>, seq<T>))
    ensures multiset(r.0) + multiset(r.1) == multiset(s)
    ensures forall x :: x in r.0 ==> p(x)
    ensures forall x :: x in r.1 ==> !p(x)
    ensures Subsequence(r.0, s) && Subsequence(r.1, s)
  {
    if s == [] then ([], [])
    else
      var rest := Partition(s[1..], p);
      assert s == [s[0]] + s[1..];
      if p(s[0]) then
        assert ([s[0]] + rest.0)[1..] == rest.0;
        ([s[0]] + rest.0, rest.1)
      else
        assert ([s[0]] + rest.1)[1..] == rest.1;
        (rest.0, [s[0]] + rest.1)
  }

  /** When no element satisfies `p`, everything lands on the second side. */
  lemma {:induction false} PartitionNone<T>(s: seq<T>, p: T -> bool)
    requires forall k :: 0 <= k < |s| ==> !p(s[k])
    ensures Partition(s, p) == ([], s)
  {
    if s != [] {
      var t := s[1..];
      PartitionNone(t, p);
      assert Partition(s, p) == ([], [s[0]] + t);
      assert [s[0]] + t == s;
    }
  }

  /** One step of `Partition`: the head goes to the side `p` picks for it. */
  lemma PartitionStep<T>(s: seq<T>, p: T -> bool)
    requires s != []
    ensures p(s[0]) ==> Partition(s, p) == ([s[0]] + Partition(s[1..], p).0, Partition(s[1..], p).1)
    ensures !p(s[0]) ==> Partition(s, p) == (Partition(s[1..], p).0, [s[0]] + Partition(s[1..], p).1)
  {
  }

  /** When the elements satisfying `p` are exactly the first `n`, the
      partition cuts `s` at `n`. */
  lemma {:induction false} PartitionPrefix<T>(s: seq<T>, p: T -> bool, n: nat)
    requires n <= |s|
    requires forall k :: 0 <= k < n ==> p(s[k])
    requires forall k :: n <= k < |s| ==> !p(s[k])
    ensures Partition(s, p) == (s[..n], s[n..])
  {
    if n == 0 {
      PartitionNone(s, p);
    } else {
      var t := s[1..];
      forall k | 0 <= k < n - 1 ensures p(t[k]) {
        assert t[k] == s[k + 1];
      }
      forall k | n - 1 <= k < |t| ensures !p(t[k]) {
        assert t[k] == s[k + 1];
      }
      PartitionPrefix(t, p, n - 1);
      PartitionStep(s, p);
      ConsCut(s, n);
    }
  }

  /** Cutting the tail of `s` one place earlier and putting the head back
      is cutting `s`. */
  lemma ConsCut<T>(s: seq<T>, n: nat)
    requires 0 < n <= |s|
    ensures [s[0]] + s[1..][..n - 1] == s[..n] && s[1..][n - 1..] == s[n..]
  {
  }

  /** Index of the first element equal to `v`: `iter().position(|r| *r == v)`. */
  function Position<T(==)>(s: seq<T>, v: T): (r: Option<nat>)
    ensures r.None? <==> v !in s
    ensures r.Some? ==> r.value < |s| && s[r.value] == v && v !in s[..r.value]
  {
    if s == [] then None
    else if s[0] == v then Some(0)
    else
      match Position(s[1..], v)
      case None => None
      case Some(k) =>
        assert s[1..][..k] == s[1..k + 1];
        assert s[..k + 1] == [s[0]] + s[1..k + 1];
        Some(k + 1)
  }

  /** A duplicate-free sequence has as many elements as its set. */
  lemma {:induction false} NoDupCardinality<T>(s: seq<T>)
    requires NoDup(s)
    ensures |set x | x in s| == |s|
  {
    if s != [] {
      var last := s[|s| - 1];
      var init := s[..|s| - 1];
      assert NoDup(init);
      NoDupCardinality(init);
      assert last !in init by {
        forall i | 0 <= i < |init| ensures init[i] != last {
          assert s[i] != s[|s| - 1];
        }
      }
      assert s == init + [last];
      assert (set x | x in s) == (set x | x in init) + {last};
    }
  }
}
