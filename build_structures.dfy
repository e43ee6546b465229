/** build_structures/build_structures.go with the database replaced by its
    answers: the page ids, the number of links, the backlinks of each id in
    the order the query returns them, and the (id, count) rows of outlink
    counts. */
module BuildStructures {
  import opened Csr
  import opened Wire

  /** The loop that finds the largest page id, starting from 0. */
  method MaxId(pageIds: seq<u32>) returns (maxId: u32)
    ensures forall i :: 0 <= i < |pageIds| ==> pageIds[i] <= maxId
    ensures maxId == 0 || maxId in pageIds
  {
    maxId := 0;
    var i := 0;
    while i < |pageIds|
      invariant 0 <= i <= |pageIds|
      invariant forall k :: 0 <= k < i ==> pageIds[k] <= maxId
      invariant maxId == 0 || maxId in pageIds[..i]
    {
      if maxId < pageIds[i] {
        maxId := pageIds[i];
      }
      i := i + 1;
    }
  }

  function Zeros(n: nat): (z: seq<u32>)
    ensures |z| == n && forall i :: 0 <= i < n ==> z[i] == 0
  {
    seq(n, _ => 0)
  }

  /** Go's `copy(dst[at:at+len(src)], src)`. */
  method CopyInto(dst: array<u32>, at: nat, src: seq<u32>)
    requires at + |src| <= dst.Length
    modifies dst
    ensures dst[..] == old(dst[..at]) + src + old(dst[at + |src|..])
  {
    forall k | 0 <= k < |src| {
      dst[at + k] := src[k];
    }
  }

  /** The packing loop of main for ids 0 .. maxId, where `query[id]` is what
      the backlink query returns for `id`. The flat array has `totalLinks`
      entries; the slice expression in `copy` needs every id's backlinks to
      fit, which holds when the link count is at least the number of rows
      returned. Entries past the last backlink keep their zero value. */
  method PackBacklinks(maxId: u32, totalLinks: u32, query: seq<seq<u32>>)
    returns (backlinks: array<u32>, count: array<u32>, cumsum: array<u32>)
    requires maxId < 0xFFFF_FFFF && |query| == maxId + 1
    requires |Flatten(query)| <= totalLinks
    ensures fresh(backlinks) && fresh(count) && fresh(cumsum)
    ensures backlinks.Length == totalLinks && count.Length == maxId + 1 && cumsum.Length == maxId + 1
    ensures backlinks[..] == Flatten(query) + Zeros(totalLinks - |Flatten(query)|)
    ensures count[..] == Counts(query)
    ensures cumsum[..] == PrefixSum(Counts(query))
  {
    backlinks := new u32[totalLinks](_ => 0);
    count := new u32[maxId + 1](_ => 0);
    cumsum := new u32[maxId + 1](_ => 0);
    FlattenLength(query);
    PackLoop(maxId, backlinks, count, cumsum, query);
  }

  /** The loop itself, over arrays made by `make`. */
  method PackLoop(maxId: u32, backlinks: array<u32>, count: array<u32>, cumsum: array<u32>, query: seq<seq<u32>>)
    requires |query| == maxId + 1 && count.Length == maxId + 1 && cumsum.Length == maxId + 1
    requires backlinks != count && backlinks != cumsum && count != cumsum
    requires |Flatten(query)| == Sum(Counts(query)) <= backlinks.Length < WORD_RANGE
    requires backlinks[..] == Zeros(backlinks.Length)
    modifies backlinks, count, cumsum
    ensures backlinks[..] == Flatten(query) + Zeros(backlinks.Length - |Flatten(query)|)
    ensures count[..] == Counts(query)
    ensures cumsum[..] == PrefixSum(Counts(query))
  {
    var prevcumsum: nat := 0;
    var id := 0;
    while id <= maxId
      invariant 0 <= id <= maxId + 1
      invariant PackedUpTo(query, id, backlinks[..], count[..], cumsum[..], prevcumsum)
    {
      PackOne(backlinks, count, cumsum, query, id, prevcumsum);
      prevcumsum := prevcumsum + |query[id]|;
      id := id + 1;
    }
    assert query[..id] == query;
    assert Counts(query)[..id] == Counts(query);
  }

  /** One turn of the packing loop: the count and running sum of `id`, then
      its backlinks copied in after those of the ids before it. */
  method PackOne(backlinks: array<u32>, count: array<u32>, cumsum: array<u32>, query: seq<seq<u32>>, id: nat, prevcumsum: nat)
    requires backlinks != count && backlinks != cumsum && count != cumsum
    requires id < |query| && PackedUpTo(query, id, backlinks[..], count[..], cumsum[..], prevcumsum)
    modifies backlinks, count, cumsum
    ensures PackedUpTo(query, id + 1, backlinks[..], count[..], cumsum[..], prevcumsum + |query[id]|)
  {
    var idBacklinks := query[id];
    ghost var flat0, count0, cumsum0 := backlinks[..], count[..], cumsum[..];
    PackStep(query, id, flat0, count0, cumsum0, prevcumsum);
    var n: u32 := |idBacklinks|;
    var total: u32 := n + prevcumsum;
    count[id] := n;
    assert count[..] == count0[id := n];
    cumsum[id] := total;
    assert cumsum[..] == cumsum0[id := total];
    CopyInto(backlinks, prevcumsum, idBacklinks);
    assert backlinks[..] == flat0[..prevcumsum] + idBacklinks + flat0[prevcumsum + |idBacklinks|..];
  }

  /** The state of the packing loop once ids 0 .. id-1 are done: the flat
      array holds their backlinks followed by zeros, `prevcumsum` is their
      number, and the counts and running sums of those ids are in place. */
  ghost predicate PackedUpTo(query: seq<seq<u32>>, id: nat, flat: seq<u32>, count: seq<u32>, cumsum: seq<u32>, prevcumsum: nat)
  {
    && id <= |query| == |count| == |cumsum|
    && Sum(Counts(query)) <= |flat| < WORD_RANGE
    && prevcumsum == Sum(Counts(query)[..id]) == |Flatten(query[..id])| <= |flat|
    && flat == Flatten(query[..id]) + Zeros(|flat| - prevcumsum)
    && count[..id] == Counts(query)[..id]
    && cumsum[..id] == PrefixSum(Counts(query)[..id])
  }

  /** One turn of the packing loop keeps its state. */
  lemma PackStep(query: seq<seq<u32>>, id: nat, flat: seq<u32>, count: seq<u32>, cumsum: seq<u32>, prevcumsum: nat)
    requires id < |query| && PackedUpTo(query, id, flat, count, cumsum, prevcumsum)
    ensures prevcumsum + |query[id]| <= |flat|
    ensures PackedUpTo(query, id + 1, flat[..prevcumsum] + query[id] + flat[prevcumsum + |query[id]|..],
                       count[id := |query[id]|], cumsum[id := |query[id]| + prevcumsum], prevcumsum + |query[id]|)
  {
    var c := Counts(query);
    GrowPrefix(query, id);
    ZerosSplit(Flatten(query[..id]), |flat| - prevcumsum, query[id]);
    assert c[..id + 1][..id] == c[..id];
    assert count[id := |query[id]|][..id + 1] == count[..id] + [c[id]];
    assert cumsum[id := |query[id]| + prevcumsum][..id + 1] == cumsum[..id] + [Sum(c[..id + 1])];
  }

  /** Copying `g` over the zero tail right after `f` leaves `f` followed by
      `g` and a shorter zero tail. */
  lemma ZerosSplit(f: seq<u32>, n: nat, g: seq<u32>)
    requires |g| <= n
    ensures (f + Zeros(n))[..|f|] + g + (f + Zeros(n))[|f| + |g|..] == (f + g) + Zeros(n - |g|)
  {
    assert (f + Zeros(n))[..|f|] == f;
    assert (f + Zeros(n))[|f| + |g|..] == Zeros(n - |g|);
  }

  /** One more id in the packing loop: the flat array grows by its
      backlinks and the running total by their number. */
  lemma GrowPrefix(query: seq<seq<u32>>, id: nat)
    requires id < |query|
    ensures Flatten(query[..id + 1]) == Flatten(query[..id]) + query[id]
    ensures Sum(Counts(query)[..id + 1]) == Sum(Counts(query)[..id]) + |query[id]|
    ensures |Flatten(query[..id + 1])| == Sum(Counts(query)[..id + 1]) <= Sum(Counts(query))
  {
    var c := Counts(query);
    assert query[..id + 1] == query[..id] + [query[id]];
    FlattenAppend(query[..id], query[id]);
    assert c[..id + 1] == c[..id] + [c[id]];
    SumAppend(c[..id], c[id]);
    FlattenLength(query[..id + 1]);
    CountsPrefix(query, id + 1);
    SumMonotone(c, id + 1);
  }

  /** In the packed arrays, the segment that ends at cumsum[id] and is
      count[id] long holds the backlinks of `id`, in query order. */
  lemma PackedSegment(totalLinks: nat, query: seq<seq<u32>>, id: nat)
    requires |Flatten(query)| <= totalLinks && id < |query|
    ensures var packed := Flatten(query) + Zeros(totalLinks - |Flatten(query)|);
            var c := Counts(query);
            c[id] <= PrefixSum(c)[id] <= |packed|
            && packed[PrefixSum(c)[id] - c[id] .. PrefixSum(c)[id]] == query[id]
  {
    SegmentOfFlatten(query, id);
    var f := Flatten(query);
    var packed := f + Zeros(totalLinks - |f|);
    var e := PrefixSum(Counts(query))[id];
    assert packed[e - |query[id]| .. e] == f[e - |query[id]| .. e];
  }

  // ---------------------------------------------------------------------
  // populate_outlinks_count

  /** The count of the last row for `id`, or 0 when no row names it. */
  function LastCount(rows: seq<(u32, u32)>, id: nat): u32
  {
    if rows == [] then 0
    else if rows[|rows| - 1].0 == id then rows[|rows| - 1].1
    else LastCount(rows[..|rows| - 1], id)
  }

  /** Zero every entry, then store each row's count at its id. */
  method PopulateOutlinksCount(outlinksCount: array<u32>, rows: seq<(u32, u32)>)
    requires forall r :: 0 <= r < |rows| ==> rows[r].0 < outlinksCount.Length
    modifies outlinksCount
    ensures forall id :: 0 <= id < outlinksCount.Length ==> outlinksCount[id] == LastCount(rows, id)
  {
    var i := 0;
    while i < outlinksCount.Length
      invariant 0 <= i <= outlinksCount.Length
      invariant forall k :: 0 <= k < i ==> outlinksCount[k] == 0
    {
      outlinksCount[i] := 0;
      i := i + 1;
    }
    var r := 0;
    while r < |rows|
      invariant 0 <= r <= |rows|
      invariant forall id :: 0 <= id < outlinksCount.Length ==> outlinksCount[id] == LastCount(rows[..r], id)
    {
      assert rows[..r + 1][..r] == rows[..r];
      outlinksCount[rows[r].0] := rows[r].1;
      r := r + 1;
    }
    assert rows[..r] == rows;
  }

  /** An id that no row names keeps the zero it was given. */
  lemma {:induction false} NoRowMeansZero(rows: seq<(u32, u32)>, id: nat)
    requires forall r :: 0 <= r < |rows| ==> rows[r].0 != id
    ensures LastCount(rows, id) == 0
  {
    if rows != [] {
      NoRowMeansZero(rows[..|rows| - 1], id);
    }
  }

  /** The last row for an id wins over every earlier one. */
  lemma {:induction false} LastRowWins(rows: seq<(u32, u32)>, j: nat)
    requires j < |rows|
    requires forall r :: j < r < |rows| ==> rows[r].0 != rows[j].0
    ensures LastCount(rows, rows[j].0) == rows[j].1
  {
    if j < |rows| - 1 {
      LastRowWins(rows[..|rows| - 1], j);
    }
  }
}
