/** The PageRank update that compute_pagerank.go and pagerank_utils.py both
    perform, over real numbers in place of float32:

      new[id] = (1 - damping) / num_pages
                + damping * sum of rank[b] / outlinks_count[b]
                  over the backlinks b in the layout slice of id

    The Python sweep reads a frozen snapshot of the ranks; the Go sweep
    writes each id in place, in increasing id order, so later ids read the
    already updated values of earlier ones. Both are defined here, together
    with the facts relating them. */
module Rank {
  import opened Csr

  const DAMPING: real := 0.85
  const CHANGE_THRESHOLD: real := 0.0000001

  /** The four arrays a sweep reads. */
  datatype Graph = Graph(links: seq<nat>, count: seq<nat>, cumsum: seq<nat>, outCount: seq<nat>)

  /** What a sweep over pages 0 .. n-1 needs of the arrays: a count and a
      running sum for every page, every page's slice inside the flat array,
      and every backlink in a slice a page id whose outlink count is
      positive. Entries outside the slices are never read. */
  predicate Readable(g: Graph, n: nat)
  {
    && |g.count| >= n && |g.cumsum| >= n && |g.outCount| >= n
    && forall id :: 0 <= id < n ==>
         && SliceEnd(g, id) <= |g.links|
         && forall i :: SliceStart(g.cumsum, id) <= i < SliceEnd(g, id) ==> g.links[i] < n && g.outCount[g.links[i]] > 0
  }

  /** A layout with zero padding after the packed backlinks is readable
      even when page 0, which the padding names, has no outlinks. */
  lemma PaddedLayoutReadable()
    ensures Readable(Graph([1, 0], [0, 1], [0, 1], [0, 1]), 2)
  {
    var g := Graph([1, 0], [0, 1], [0, 1], [0, 1]);
    assert SliceEnd(g, 0) == 0 && SliceEnd(g, 1) == 1;
  }

  /** rank[b] / outlinks_count[b] for the backlink b at entry i of the flat
      array; an entry that names no page with outlinks, which no slice of a
      readable layout contains, contributes 0. */
  function Term(r: seq<real>, g: Graph, i: nat): real
    requires i < |g.links|
  {
    var b := g.links[i];
    if b < |r| && b < |g.outCount| && g.outCount[b] > 0 then r[b] / g.outCount[b] as real else 0.0
  }

  /** The term of every entry of the flat array (`sum_terms[[backlinks]]` in
      the Python code). */
  function UpdateTerms(r: seq<real>, g: Graph): (t: seq<real>)
    ensures |t| == |g.links|
    ensures forall i :: 0 <= i < |g.links| ==> t[i] == Term(r, g, i)
  {
    seq(|g.links|, i requires 0 <= i < |g.links| => Term(r, g, i))
  }

  /** t[lo] + ... + t[hi - 1], added from left to right. */
  function SumSlice(t: seq<real>, lo: nat, hi: nat): real
    requires lo <= hi <= |t|
    decreases hi - lo
  {
    if hi == lo then 0.0 else SumSlice(t, lo, hi - 1) + t[hi - 1]
  }

  function SliceEnd(g: Graph, id: nat): nat
    requires id < |g.count| && id <= |g.cumsum|
  {
    SliceStart(g.cumsum, id) + g.count[id]
  }

  /** The sum of the backlink terms of page `id`. */
  function BacklinkSum(r: seq<real>, g: Graph, id: nat): real
    requires Readable(g, |r|) && id < |r|
  {
    SumSlice(UpdateTerms(r, g), SliceStart(g.cumsum, id), SliceEnd(g, id))
  }

  /** The new rank of page `id` computed from the ranks `r`. */
  function NewRank(r: seq<real>, g: Graph, numPages: nat, damping: real, id: nat): real
    requires Readable(g, |r|) && id < |r| && numPages > 0
  {
    (1.0 - damping) / numPages as real + damping * BacklinkSum(r, g, id)
  }

  /** One sweep that reads only the ranks it started from. */
  function SnapshotSweep(r: seq<real>, g: Graph, numPages: nat, damping: real): (s: seq<real>)
    requires Readable(g, |r|) && numPages > 0
    ensures |s| == |r|
  {
    seq(|r|, id requires 0 <= id < |r| => NewRank(r, g, numPages, damping, id))
  }

  /** The ranks after the in-place sweep has written ids 0 .. k-1. */
  function InPlacePrefix(r: seq<real>, g: Graph, numPages: nat, damping: real, k: nat): (s: seq<real>)
    requires Readable(g, |r|) && numPages > 0 && k <= |r|
    ensures |s| == |r|
  {
    if k == 0 then r
    else
      var s := InPlacePrefix(r, g, numPages, damping, k - 1);
      s[k - 1 := NewRank(s, g, numPages, damping, k - 1)]
  }

  /** One in-place sweep over all ids, in increasing order. */
  function InPlaceSweep(r: seq<real>, g: Graph, numPages: nat, damping: real): (s: seq<real>)
    requires Readable(g, |r|) && numPages > 0
    ensures |s| == |r|
  {
    InPlacePrefix(r, g, numPages, damping, |r|)
  }

  // ---------------------------------------------------------------------
  // Counting pages, and the difference between two rank vectors

  function PositiveIds(outCount: seq<nat>): set<nat>
  {
    set i | 0 <= i < |outCount| && outCount[i] > 0
  }

  /** The number of pages: entries of outlinks_count greater than zero. */
  function NumPages(outCount: seq<nat>): (k: nat)
    ensures k <= |outCount|
    ensures k == |PositiveIds(outCount)|
  {
    if outCount == [] then 0
    else
      var init := outCount[..|outCount| - 1];
      var last := |outCount| - 1;
      assert PositiveIds(outCount) == PositiveIds(init) + (if outCount[last] > 0 then {last} else {});
      NumPages(init) + (if outCount[last] > 0 then 1 else 0)
  }

  function Abs(x: real): real
  {
    if x < 0.0 then -x else x
  }

  /** |p[0] - o[0]| + ... + |p[k-1] - o[k-1]|. */
  function SumAbsDiff(p: seq<real>, o: seq<real>, k: nat): real
    requires k <= |p| && k <= |o|
  {
    if k == 0 then 0.0 else SumAbsDiff(p, o, k - 1) + Abs(p[k - 1] - o[k - 1])
  }

  /** The average absolute difference per id. */
  function MeanAbsDiff(p: seq<real>, o: seq<real>): real
    requires 0 < |p| <= |o|
  {
    SumAbsDiff(p, o, |p|) / |p| as real
  }

  lemma {:induction false} SumAbsDiffZeroIff(p: seq<real>, o: seq<real>, k: nat)
    requires k <= |p| && k <= |o|
    ensures SumAbsDiff(p, o, k) >= 0.0
    ensures SumAbsDiff(p, o, k) == 0.0 <==> p[..k] == o[..k]
  {
    if k > 0 {
      SumAbsDiffZeroIff(p, o, k - 1);
      assert p[..k] == p[..k - 1] + [p[k - 1]];
      assert o[..k] == o[..k - 1] + [o[k - 1]];
      if p[..k] == o[..k] {
        assert p[..k - 1] == p[..k][..k - 1];
        assert o[..k - 1] == o[..k][..k - 1];
      }
    }
  }

  /** The difference is never negative, and it is zero exactly when the two
      vectors agree on every id. */
  lemma MeanAbsDiffZeroIff(p: seq<real>, o: seq<real>)
    requires 0 < |p| <= |o|
    ensures MeanAbsDiff(p, o) >= 0.0
    ensures MeanAbsDiff(p, o) == 0.0 <==> p == o[..|p|]
  {
    SumAbsDiffZeroIff(p, o, |p|);
    assert p[..|p|] == p;
  }

  // ---------------------------------------------------------------------
  // How the in-place sweep relates to the snapshot sweep

  lemma {:induction false} InPlacePrefixUntouched(r: seq<real>, g: Graph, numPages: nat, damping: real, k: nat, j: nat)
    requires Readable(g, |r|) && numPages > 0 && k <= j < |r|
    ensures InPlacePrefix(r, g, numPages, damping, k)[j] == r[j]
  {
    if k > 0 {
      InPlacePrefixUntouched(r, g, numPages, damping, k - 1, j);
    }
  }

  lemma {:induction false} InPlacePrefixStable(r: seq<real>, g: Graph, numPages: nat, damping: real, k: nat, m: nat, j: nat)
    requires Readable(g, |r|) && numPages > 0 && j < k <= m <= |r|
    ensures InPlacePrefix(r, g, numPages, damping, m)[j] == InPlacePrefix(r, g, numPages, damping, k)[j]
    decreases m
  {
    if m > k {
      InPlacePrefixStable(r, g, numPages, damping, k, m - 1, j);
    }
  }

  /** After ids 0 .. k-1 are written, the array holds their final values and
      the original values of the others: each id is written exactly once,
      in increasing order. */
  lemma InPlacePrefixShape(r: seq<real>, g: Graph, numPages: nat, damping: real, k: nat)
    requires Readable(g, |r|) && numPages > 0 && k <= |r|
    ensures InPlacePrefix(r, g, numPages, damping, k)
         == InPlaceSweep(r, g, numPages, damping)[..k] + r[k..]
  {
    var s := InPlacePrefix(r, g, numPages, damping, k);
    var f := InPlaceSweep(r, g, numPages, damping);
    forall j | 0 <= j < |r|
      ensures s[j] == (f[..k] + r[k..])[j]
    {
      if j < k {
        InPlacePrefixStable(r, g, numPages, damping, k, |r|, j);
      } else {
        InPlacePrefixUntouched(r, g, numPages, damping, k, j);
      }
    }
  }

  /** In the in-place sweep, page k is computed from the already updated
      values of the pages before it and the original values of the rest. */
  lemma InPlaceReadsUpdatedPrefix(r: seq<real>, g: Graph, numPages: nat, damping: real, k: nat)
    requires Readable(g, |r|) && numPages > 0 && k < |r|
    ensures Readable(g, |InPlaceSweep(r, g, numPages, damping)[..k] + r[k..]|)
    ensures InPlaceSweep(r, g, numPages, damping)[k]
         == NewRank(InPlaceSweep(r, g, numPages, damping)[..k] + r[k..], g, numPages, damping, k)
  {
    InPlacePrefixShape(r, g, numPages, damping, k);
    InPlacePrefixStable(r, g, numPages, damping, k + 1, |r|, k);
  }

  lemma {:induction false} SumSliceFrame(t1: seq<real>, t2: seq<real>, lo: nat, hi: nat)
    requires lo <= hi <= |t1| && hi <= |t2|
    requires forall i :: lo <= i < hi ==> t1[i] == t2[i]
    ensures SumSlice(t1, lo, hi) == SumSlice(t2, lo, hi)
    decreases hi - lo
  {
    if hi > lo {
      SumSliceFrame(t1, t2, lo, hi - 1);
    }
  }

  /** The new rank of `id` depends only on the ranks of the backlinks in its
      slice. */
  lemma NewRankFrame(r1: seq<real>, r2: seq<real>, g: Graph, numPages: nat, damping: real, id: nat)
    requires |r1| == |r2| && Readable(g, |r1|) && numPages > 0 && id < |r1|
    requires forall i :: SliceStart(g.cumsum, id) <= i < SliceEnd(g, id) ==> r1[g.links[i]] == r2[g.links[i]]
    ensures NewRank(r1, g, numPages, damping, id) == NewRank(r2, g, numPages, damping, id)
  {
    SumSliceFrame(UpdateTerms(r1, g), UpdateTerms(r2, g), SliceStart(g.cumsum, id), SliceEnd(g, id));
  }

  /** Both sweeps agree on a rank vector that the snapshot sweep leaves
      unchanged: a fixed point of the one is a fixed point of the other. */
  lemma FixedPointAgrees(r: seq<real>, g: Graph, numPages: nat, damping: real)
    requires Readable(g, |r|) && numPages > 0
    requires SnapshotSweep(r, g, numPages, damping) == r
    ensures InPlaceSweep(r, g, numPages, damping) == r
  {
    var k := 0;
    while k < |r|
      invariant 0 <= k <= |r|
      invariant InPlacePrefix(r, g, numPages, damping, k) == r
    {
      FixedPointStep(r, g, numPages, damping, k);
      k := k + 1;
    }
  }

  lemma FixedPointStep(r: seq<real>, g: Graph, numPages: nat, damping: real, k: nat)
    requires Readable(g, |r|) && numPages > 0 && k < |r|
    requires InPlacePrefix(r, g, numPages, damping, k) == r
    requires SnapshotSweep(r, g, numPages, damping)[k] == r[k]
    ensures InPlacePrefix(r, g, numPages, damping, k + 1) == r
  {
    assert NewRank(r, g, numPages, damping, k) == SnapshotSweep(r, g, numPages, damping)[k];
  }

  /** When every backlink read by a page is that page or a later one, the
      in-place sweep reads only original values and equals the snapshot
      sweep. */
  lemma ForwardLinksAgree(r: seq<real>, g: Graph, numPages: nat, damping: real)
    requires Readable(g, |r|) && numPages > 0
    requires forall id, i :: 0 <= id < |r| && SliceStart(g.cumsum, id) <= i < SliceEnd(g, id) ==> g.links[i] >= id
    ensures InPlaceSweep(r, g, numPages, damping) == SnapshotSweep(r, g, numPages, damping)
  {
    var f := InPlaceSweep(r, g, numPages, damping);
    forall k | 0 <= k < |r|
      ensures f[k] == SnapshotSweep(r, g, numPages, damping)[k]
    {
      var s := InPlacePrefix(r, g, numPages, damping, k);
      forall i | SliceStart(g.cumsum, k) <= i < SliceEnd(g, k)
        ensures s[g.links[i]] == r[g.links[i]]
      {
        InPlacePrefixUntouched(r, g, numPages, damping, k, g.links[i]);
      }
      NewRankFrame(s, r, g, numPages, damping, k);
      InPlacePrefixStable(r, g, numPages, damping, k + 1, |r|, k);
    }
  }

  /** The two sweeps differ in general: with page 0 linking to page 1 (so
      one page with outlinks), the in-place sweep computes page 1 from the
      new rank of page 0. */
  lemma SweepsDiffer()
    ensures var g := Graph([0], [0, 1], [0, 1], [1, 0]);
            Readable(g, 2) && NumPages(g.outCount) == 1
            && SnapshotSweep([1.0, 0.0], g, 1, DAMPING) == [0.15, 1.0]
            && InPlaceSweep([1.0, 0.0], g, 1, DAMPING) == [0.15, 0.2775]
  {
    var g := Graph([0], [0, 1], [0, 1], [1, 0]);
    var r := [1.0, 0.0];
    assert UpdateTerms(r, g) == [1.0];
    assert SumSlice(UpdateTerms(r, g), 0, 1) == 1.0;
    var s1 := InPlacePrefix(r, g, 1, DAMPING, 1);
    assert s1 == [0.15, 0.0];
    assert UpdateTerms(s1, g) == [0.15];
    assert SumSlice(UpdateTerms(s1, g), 0, 1) == 0.15;
    assert PositiveIds(g.outCount) == {0};
  }

  lemma {:induction false} SumSliceNonNegative(t: seq<real>, lo: nat, hi: nat)
    requires lo <= hi <= |t|
    requires forall i :: 0 <= i < |t| ==> t[i] >= 0.0
    ensures SumSlice(t, lo, hi) >= 0.0
    decreases hi - lo
  {
    if hi > lo {
      SumSliceNonNegative(t, lo, hi - 1);
    }
  }

  lemma NewRankAtLeastBase(r: seq<real>, g: Graph, numPages: nat, damping: real, id: nat)
    requires Readable(g, |r|) && numPages > 0 && id < |r|
    requires 0.0 <= damping && forall j :: 0 <= j < |r| ==> r[j] >= 0.0
    ensures NewRank(r, g, numPages, damping, id) >= (1.0 - damping) / numPages as real
  {
    var t := UpdateTerms(r, g);
    forall i | 0 <= i < |t|
      ensures t[i] >= 0.0
    {
      assert Term(r, g, i) >= 0.0;
    }
    SumSliceNonNegative(t, SliceStart(g.cumsum, id), SliceEnd(g, id));
  }

  /** From non-negative ranks and a damping factor in [0, 1), every page gets
      a strictly positive rank of at least (1 - damping) / num_pages, in
      either sweep. */
  lemma SweepsPositive(r: seq<real>, g: Graph, numPages: nat, damping: real)
    requires Readable(g, |r|) && numPages > 0
    requires 0.0 <= damping < 1.0 && forall j :: 0 <= j < |r| ==> r[j] >= 0.0
    ensures forall id :: 0 <= id < |r| ==> SnapshotSweep(r, g, numPages, damping)[id] >= (1.0 - damping) / numPages as real > 0.0
    ensures forall id :: 0 <= id < |r| ==> InPlaceSweep(r, g, numPages, damping)[id] >= (1.0 - damping) / numPages as real > 0.0
  {
    forall id | 0 <= id < |r|
      ensures SnapshotSweep(r, g, numPages, damping)[id] >= (1.0 - damping) / numPages as real
    {
      NewRankAtLeastBase(r, g, numPages, damping, id);
    }
    var k := 0;
    while k < |r|
      invariant 0 <= k <= |r|
      invariant forall j :: 0 <= j < |r| ==> InPlacePrefix(r, g, numPages, damping, k)[j] >= 0.0
      invariant forall j :: 0 <= j < k ==> InPlacePrefix(r, g, numPages, damping, k)[j] >= (1.0 - damping) / numPages as real
    {
      NewRankAtLeastBase(InPlacePrefix(r, g, numPages, damping, k), g, numPages, damping, k);
      k := k + 1;
    }
  }
}
