/**
 * Reranking of candidates (`LSH::knn` and `LSH::sortIndices`): squared
 * Euclidean distances, an index sort by a key in descending order, and the
 * reordering of the candidate ids through the sorted indices.
 */
module Rerank {

  /** `dot(p - q, p - q)`: the squared Euclidean distance between two rows of one length. */
  function SqDist(p: seq<real>, q: seq<real>): real
    requires |p| == |q|
  {
    if p == [] then 0.0
    else
      var d := p[|p| - 1] - q[|q| - 1];
      SqDist(p[..|p| - 1], q[..|q| - 1]) + d * d
  }

  lemma {:induction false} SqDistNonNegative(p: seq<real>, q: seq<real>)
    requires |p| == |q|
    ensures SqDist(p, q) >= 0.0
  {
    if p != [] {
      SqDistNonNegative(p[..|p| - 1], q[..|q| - 1]);
      var d := p[|p| - 1] - q[|q| - 1];
      assert d * d >= 0.0;
    }
  }

  /** A row is at squared distance 0 from itself. */
  lemma {:induction false} SqDistSelf(p: seq<real>)
    ensures SqDist(p, p) == 0.0
  {
    if p != [] {
      SqDistSelf(p[..|p| - 1]);
    }
  }

  /** [0, 1, ..., n-1]: the index vector `sortIndices` starts from. */
  function Iota(n: nat): (r: seq<nat>)
    ensures |r| == n && forall i :: 0 <= i < n ==> r[i] == i
  {
    seq(n, i => i)
  }

  /** Every entry of `idx` is below `n`. */
  predicate IndicesBelow(idx: seq<nat>, n: nat) {
    forall i :: 0 <= i < |idx| ==> idx[i] < n
  }

  /** `neighbors[range[i]]` for every i: the reordering `knn` applies after sorting. */
  function Gather(s: seq<nat>, idx: seq<nat>): seq<nat>
    requires IndicesBelow(idx, |s|)
  {
    seq(|idx|, i requires 0 <= i < |idx| => s[idx[i]])
  }

  lemma GatherAppend(s: seq<nat>, x: seq<nat>, y: seq<nat>)
    requires IndicesBelow(x, |s|) && IndicesBelow(y, |s|)
    ensures IndicesBelow(x + y, |s|)
    ensures Gather(s, x + y) == Gather(s, x) + Gather(s, y)
  {
  }

  lemma IndicesOfEqualMultisets(s: seq<nat>, a: seq<nat>, b: seq<nat>)
    requires IndicesBelow(a, |s|) && multiset(a) == multiset(b)
    ensures IndicesBelow(b, |s|)
  {
    forall i | 0 <= i < |b| ensures b[i] < |s| {
      assert b[i] in multiset(a);
      var j :| 0 <= j < |a| && a[j] == b[i];
    }
  }

  lemma RemoveAt(b: seq<nat>, k: nat)
    requires k < |b|
    ensures b == b[..k] + [b[k]] + b[k + 1..]
    ensures multiset(b[..k] + b[k + 1..]) == multiset(b) - multiset{b[k]}
  {
    assert b == b[..k] + [b[k]] + b[k + 1..];
  }

  lemma GatherSnoc(s: seq<nat>, a: seq<nat>, x: nat)
    requires IndicesBelow(a, |s|) && x < |s|
    ensures IndicesBelow(a + [x], |s|)
    ensures multiset(Gather(s, a + [x])) == multiset(Gather(s, a)) + multiset{s[x]}
  {
    assert Gather(s, a + [x]) == Gather(s, a) + [s[x]];
  }

  lemma GatherRemove(s: seq<nat>, b: seq<nat>, k: nat)
    requires IndicesBelow(b, |s|) && k < |b|
    ensures IndicesBelow(b[..k] + b[k + 1..], |s|)
    ensures multiset(Gather(s, b)) == multiset(Gather(s, b[..k] + b[k + 1..])) + multiset{s[b[k]]}
  {
    var left, right := b[..k], b[k + 1..];
    assert b == left + [b[k]] + right;
    GatherAppend(s, left + [b[k]], right);
    GatherAppend(s, left, [b[k]]);
    GatherAppend(s, left, right);
  }

  /** The last index of `a` occurs in `b` at some `k`; what is left of both still has one multiset. */
  lemma MatchLast(s: seq<nat>, a: seq<nat>, b: seq<nat>) returns (k: nat)
    requires a != [] && IndicesBelow(a, |s|) && multiset(a) == multiset(b)
    ensures k < |b| && b[k] == a[|a| - 1]
    ensures IndicesBelow(a[..|a| - 1], |s|)
    ensures multiset(a[..|a| - 1]) == multiset(b[..k] + b[k + 1..])
  {
    DropLast(a);
    PrefixBelow(a, |a| - 1, |s|);
    k := FindIn(b, a[|a| - 1]);
    RemoveAt(b, k);
  }

  lemma FindIn(b: seq<nat>, x: nat) returns (k: nat)
    requires x in multiset(b)
    ensures k < |b| && b[k] == x
  {
    k :| 0 <= k < |b| && b[k] == x;
  }

  lemma DropLast(a: seq<nat>)
    requires a != []
    ensures multiset(a[..|a| - 1]) == multiset(a) - multiset{a[|a| - 1]}
  {
    assert a == a[..|a| - 1] + [a[|a| - 1]];
  }

  lemma PrefixBelow(a: seq<nat>, j: nat, n: nat)
    requires IndicesBelow(a, n) && j <= |a|
    ensures IndicesBelow(a[..j], n)
  {
  }

  /** What `Gather` yields depends only on the multiset of indices. */
  lemma {:induction false} GatherRespectsMultiset(s: seq<nat>, a: seq<nat>, b: seq<nat>)
    requires IndicesBelow(a, |s|) && IndicesBelow(b, |s|) && multiset(a) == multiset(b)
    ensures multiset(Gather(s, a)) == multiset(Gather(s, b))
    decreases |a|
  {
    if a != [] {
      var k := MatchLast(s, a, b);
      var x, a', rest := a[|a| - 1], a[..|a| - 1], b[..k] + b[k + 1..];
      assert a == a' + [x];
      GatherRemove(s, b, k);
      GatherSnoc(s, a', x);
      GatherRespectsMultiset(s, a', rest);
    } else {
      assert b == [] by {
        assert |multiset(b)| == 0;
      }
    }
  }

  /** Reordering through a permutation of the indices gives a permutation of the sequence. */
  lemma GatherPermutation(s: seq<nat>, idx: seq<nat>)
    requires multiset(idx) == multiset(Iota(|s|))
    ensures IndicesBelow(idx, |s|)
    ensures multiset(Gather(s, idx)) == multiset(s)
  {
    var iota := Iota(|s|);
    IndicesOfEqualMultisets(s, iota, idx);
    GatherRespectsMultiset(s, iota, idx);
    assert Gather(s, iota) == s;
  }

  method Swap(a: array<nat>, i: nat, j: nat)
    requires i < a.Length && j < a.Length
    modifies a
    ensures a[i] == old(a[j]) && a[j] == old(a[i])
    ensures forall k :: 0 <= k < a.Length && k != i && k != j ==> a[k] == old(a[k])
    ensures multiset(a[..]) == old(multiset(a[..]))
  {
    a[i], a[j] := a[j], a[i];
  }

  /**
   * `sortIndices`: fill `indices` with 0..n-1, then sort it so that `sortBy`
   * read through it is non-increasing (the comparator `sortBy[a] > sortBy[b]`).
   * `std::sort` is not stable; the order among equal keys is whatever this sort gives.
   */
  method SortIndices(sortBy: seq<real>, indices: array<nat>)
    requires indices.Length == |sortBy|
    modifies indices
    ensures multiset(indices[..]) == multiset(Iota(|sortBy|))
    ensures forall k :: 0 <= k < indices.Length ==> indices[k] < |sortBy|
    ensures forall i, j :: 0 <= i < j < indices.Length ==> sortBy[indices[i]] >= sortBy[indices[j]]
  {
    var n := indices.Length;
    for i := 0 to n
      invariant forall k :: 0 <= k < i ==> indices[k] == k
    {
      indices[i] := i;
    }
    assert indices[..] == Iota(n);
    for i := 0 to n
      invariant multiset(indices[..]) == multiset(Iota(n))
      invariant forall k :: 0 <= k < n ==> indices[k] < n
      invariant forall a, b :: 0 <= a < b < i ==> sortBy[indices[a]] >= sortBy[indices[b]]
    {
      InsertIntoPrefix(sortBy, indices, i);
    }
  }

  /** One insertion-sort step: move `indices[i]` left into the non-increasing prefix `indices[..i]`. */
  method InsertIntoPrefix(sortBy: seq<real>, indices: array<nat>, i: nat)
    requires i < indices.Length == |sortBy|
    requires forall k :: 0 <= k < indices.Length ==> indices[k] < |sortBy|
    requires forall a, b :: 0 <= a < b < i ==> sortBy[indices[a]] >= sortBy[indices[b]]
    modifies indices
    ensures multiset(indices[..]) == old(multiset(indices[..]))
    ensures forall k :: 0 <= k < indices.Length ==> indices[k] < |sortBy|
    ensures forall a, b :: 0 <= a < b <= i ==> sortBy[indices[a]] >= sortBy[indices[b]]
  {
    var j: nat := i;
    while 0 < j && sortBy[indices[j - 1]] < sortBy[indices[j]]
      invariant j <= i
      invariant multiset(indices[..]) == old(multiset(indices[..]))
      invariant forall k :: 0 <= k < indices.Length ==> indices[k] < |sortBy|
      invariant forall a, b :: 0 <= a < b <= i && a != j && b != j ==> sortBy[indices[a]] >= sortBy[indices[b]]
      invariant forall b :: j < b <= i ==> sortBy[indices[j]] > sortBy[indices[b]]
    {
      Swap(indices, j - 1, j);
      j := j - 1;
    }
  }

  /**
   * The body shared by both `knn` overloads, given the candidates `neighbors`:
   * `dists[i]` is the negated squared distance of candidate i, in candidate
   * order; `ordered` is a permutation of the candidates, nearest first.
   */
  method RankByDistance(p: seq<real>, rows: seq<seq<real>>, neighbors: seq<nat>) returns (dists: seq<real>, ordered: seq<nat>)
    requires forall i :: 0 <= i < |neighbors| ==> neighbors[i] < |rows| && |rows[neighbors[i]]| == |p|
    ensures |dists| == |neighbors|
    ensures forall i :: 0 <= i < |neighbors| ==> dists[i] == -SqDist(p, rows[neighbors[i]])
    ensures multiset(ordered) == multiset(neighbors)
    ensures forall i :: 0 <= i < |ordered| ==> ordered[i] < |rows| && |rows[ordered[i]]| == |p|
    ensures forall i, j :: 0 <= i < j < |ordered| ==> SqDist(p, rows[ordered[i]]) <= SqDist(p, rows[ordered[j]])
  {
    var n := |neighbors|;
    var range := new nat[n];
    var d := new real[n];
    for i := 0 to n
      modifies range, d
      invariant forall k :: 0 <= k < i ==> d[k] == -SqDist(p, rows[neighbors[k]])
    {
      range[i] := i;
      d[i] := -SqDist(p, rows[neighbors[i]]);
    }
    dists := d[..];
    SortIndices(dists, range);
    var sorted := new nat[n];
    ghost var permutation := range[..];
    for i := 0 to n
      modifies sorted
      invariant range[..] == permutation
      invariant forall k :: 0 <= k < i ==> sorted[k] == neighbors[range[k]]
    {
      sorted[i] := neighbors[range[i]];
    }
    ordered := sorted[..];
    assert ordered == Gather(neighbors, range[..]);
    GatherPermutation(neighbors, range[..]);
    forall i, j | 0 <= i < j < |ordered| ensures SqDist(p, rows[ordered[i]]) <= SqDist(p, rows[ordered[j]]) {
      assert dists[range[i]] >= dists[range[j]];
    }
  }

  /**
   * A query that equals a stored row among the reranked candidates gets a
   * nearest result at distance 0 (that row itself, or one as near).
   */
  lemma ExactMatchFirst(p: seq<real>, rows: seq<seq<real>>, ordered: seq<nat>, k: nat)
    requires forall i :: 0 <= i < |ordered| ==> ordered[i] < |rows| && |rows[ordered[i]]| == |p|
    requires forall i, j :: 0 <= i < j < |ordered| ==> SqDist(p, rows[ordered[i]]) <= SqDist(p, rows[ordered[j]])
    requires k < |ordered| && rows[ordered[k]] == p
    ensures SqDist(p, rows[ordered[0]]) == 0.0
  {
    SqDistSelf(p);
    SqDistNonNegative(p, rows[ordered[0]]);
  }
}
