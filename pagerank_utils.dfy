/** data/pagerank_utils.py: the dict-to-array conversions, the snapshot
    sweep, the difference between two rank arrays and one step of the
    convergence loop. numpy float32 arrays are modelled as arrays of reals.
    get_num_pages is Rank.NumPages and get_optimized_backlinks is Csr.Encode. */
module PagerankUtils {
  import opened Csr
  import opened Rank

  /** The ids 0 .. n-1. */
  function RangeSet(n: nat): (r: set<nat>)
    ensures forall i: nat :: i in r <==> i < n
  {
    if n == 0 then {} else RangeSet(n - 1) + {n - 1}
  }

  lemma {:induction false} RangeSetSize(n: nat)
    ensures |RangeSet(n)| == n
  {
    if n > 0 {
      var prev := RangeSet(n - 1);
      RangeSetSize(n - 1);
      assert n - 1 !in prev;
      assert |prev + {n - 1}| == |prev| + 1;
    }
  }

  /** get_optimized_pageranks: the array whose entry `id` is the rank of
      `id`, for the ids 0 .. len(pageranks) - 1. */
  function OptimizedRanks(m: map<nat, real>): (r: seq<real>)
    requires forall id :: 0 <= id < |m| ==> id in m
    ensures |r| == |m|
  {
    seq(|m|, id requires 0 <= id < |m| => m[id])
  }

  /** The dict the convergence loop returns: one key per id of the array. */
  function RankDict(s: seq<real>): (m: map<nat, real>)
    ensures m.Keys == RangeSet(|s|)
  {
    map id | 0 <= id < |s| :: s[id]
  }

  /** The two conversions are inverse to each other on dicts keyed by
      0 .. n-1. */
  lemma OptimizedRanksRoundTrip(s: seq<real>, m: map<nat, real>)
    requires forall id :: 0 <= id < |m| ==> id in m
    ensures |RankDict(s)| == |s|
    ensures OptimizedRanks(RankDict(s)) == s
    ensures RankDict(OptimizedRanks(m)) == m
  {
    RangeSetSize(|s|);
    assert RankDict(s).Keys == RangeSet(|s|);
    RangeSetSize(|m|);
    assert RangeSet(|m|) <= m.Keys;
    assert |m.Keys| == |m|;
    SubsetOfSameSize(RangeSet(|m|), m.Keys);
  }

  lemma {:induction false} SubsetOfSameSize(a: set<nat>, b: set<nat>)
    requires a <= b && |a| == |b|
    ensures a == b
    decreases |a|
  {
    if a != {} {
      var x :| x in a;
      SubsetOfSameSize(a - {x}, b - {x});
      assert a == (a - {x}) + {x};
      assert b == (b - {x}) + {x};
    } else {
      assert |b| == 0;
    }
  }

  /** get_optimized_backlinks produces a consistent layout: the running sums
      are the running sums of the counts and the last one is the length of
      the flat array. */
  lemma EncodeConsistent(lists: seq<seq<nat>>)
    ensures Consistent(Encode(lists))
    ensures forall id :: 0 <= id < |lists| ==> Encode(lists).count[id] == |lists[id]|
  {
    FlattenLength(lists);
  }

  /** pagerank_iter: every rank over the backlink slice is divided by its
      outlink count before the loop, so each new value is computed from the
      ranks as they were on entry even though the array is overwritten id by
      id; `start` moves to cumsum[id] after each id. */
  method PagerankIter(pageranks: array<real>, g: Graph, numPages: nat, damping: real)
    requires Readable(g, pageranks.Length) && |g.outCount| == pageranks.Length && numPages > 0
    requires forall i :: 0 <= i < |g.links| ==> g.links[i] < pageranks.Length
    modifies pageranks
    ensures pageranks[..] == SnapshotSweep(old(pageranks[..]), g, numPages, damping)
  {
    var dampingSum := (1.0 - damping) / numPages as real;
    var snapshot := pageranks[..];
    var updateTerms := UpdateTerms(snapshot, g);
    var start := 0;
    var id := 0;
    while id < pageranks.Length
      invariant 0 <= id <= pageranks.Length
      invariant start == SliceStart(g.cumsum, id)
      invariant pageranks[..] == SnapshotSweep(snapshot, g, numPages, damping)[..id] + snapshot[id..]
    {
      start := WriteRank(pageranks, snapshot, updateTerms, g, numPages, damping, dampingSum, id, start);
      id := id + 1;
    }
    assert SnapshotSweep(snapshot, g, numPages, damping)[..id] + snapshot[id..] == SnapshotSweep(snapshot, g, numPages, damping);
  }

  /** One turn of the loop of pagerank_iter: the sum of the update terms in
      the slice of `id`, stored as its new rank; `start` moves to
      cumsum[id]. */
  method WriteRank(pageranks: array<real>, snapshot: seq<real>, updateTerms: seq<real>, g: Graph,
                   numPages: nat, damping: real, dampingSum: real, id: nat, start: nat) returns (next: nat)
    requires Readable(g, |snapshot|) && numPages > 0 && id < |snapshot| == pageranks.Length
    requires dampingSum == (1.0 - damping) / numPages as real
    requires updateTerms == UpdateTerms(snapshot, g) && start == SliceStart(g.cumsum, id)
    requires pageranks[..] == SnapshotSweep(snapshot, g, numPages, damping)[..id] + snapshot[id..]
    modifies pageranks
    ensures next == SliceStart(g.cumsum, id + 1)
    ensures pageranks[..] == SnapshotSweep(snapshot, g, numPages, damping)[..id + 1] + snapshot[id + 1..]
  {
    ghost var target := SnapshotSweep(snapshot, g, numPages, damping);
    SnapshotTerm(snapshot, g, numPages, damping, id);
    var backlinksTerm := SumSlice(updateTerms, start, start + g.count[id]);
    assert dampingSum + damping * backlinksTerm == target[id];
    pageranks[id] := dampingSum + damping * backlinksTerm;
    assert pageranks[..] == (target[..id] + snapshot[id..])[id := target[id]];
    SpliceStep(target, snapshot, id);
    next := g.cumsum[id];
    assert next == SliceStart(g.cumsum, id + 1);
  }

  /** Writing entry `id` of the new values moves the boundary between new
      and old values one place on. */
  lemma SpliceStep(updated: seq<real>, stale: seq<real>, id: nat)
    requires |updated| == |stale| && id < |updated|
    ensures (updated[..id] + stale[id..])[id := updated[id]] == updated[..id + 1] + stale[id + 1..]
  {
  }

  /** The new value of `id`: the damping term plus the sum of the terms in
      its slice, `start` being SliceStart(cumsum, id). */
  lemma SnapshotTerm(snapshot: seq<real>, g: Graph, numPages: nat, damping: real, id: nat)
    requires Readable(g, |snapshot|) && numPages > 0 && id < |snapshot|
    ensures SliceStart(g.cumsum, id) + g.count[id] <= |g.links|
    ensures SnapshotSweep(snapshot, g, numPages, damping)[id]
         == (1.0 - damping) / numPages as real
            + damping * SumSlice(UpdateTerms(snapshot, g), SliceStart(g.cumsum, id), SliceStart(g.cumsum, id) + g.count[id])
  {
    assert SliceEnd(g, id) <= |g.links|;
  }

  /** compute_difference: the average absolute difference per id. */
  method ComputeDifference(pageranks: array<real>, oldPageranks: array<real>) returns (diff: real)
    requires 0 < pageranks.Length <= oldPageranks.Length
    ensures diff == MeanAbsDiff(pageranks[..], oldPageranks[..])
  {
    diff := 0.0;
    var i := 0;
    while i < pageranks.Length
      invariant 0 <= i <= pageranks.Length
      invariant diff == SumAbsDiff(pageranks[..], oldPageranks[..], i)
    {
      diff := diff + Abs(pageranks[i] - oldPageranks[i]);
      i := i + 1;
    }
    diff := diff / pageranks.Length as real;
  }

  /** One step of converge_pageranks: sweep a fresh copy of the current
      ranks, measure the difference, and go on while it exceeds
      CHANGE_THRESHOLD. The current array is only read. */
  method ConvergeStep(pageranks: array<real>, g: Graph, numPages: nat)
    returns (newPageranks: array<real>, diff: real, again: bool)
    requires 0 < pageranks.Length
    requires Readable(g, pageranks.Length) && |g.outCount| == pageranks.Length && numPages > 0
    requires forall i :: 0 <= i < |g.links| ==> g.links[i] < pageranks.Length
    ensures fresh(newPageranks)
    ensures newPageranks[..] == SnapshotSweep(pageranks[..], g, numPages, DAMPING)
    ensures diff == MeanAbsDiff(newPageranks[..], pageranks[..])
    ensures again <==> diff > CHANGE_THRESHOLD
  {
    newPageranks := new real[pageranks.Length](i requires 0 <= i < pageranks.Length reads pageranks => pageranks[i]);
    assert newPageranks[..] == pageranks[..];
    PagerankIter(newPageranks, g, numPages, DAMPING);
    diff := ComputeDifference(newPageranks, pageranks);
    again := diff > CHANGE_THRESHOLD;
  }
}
