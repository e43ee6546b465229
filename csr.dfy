/** The compressed backlink layout shared by build_structures.go,
    compute_pagerank.go, pagerank_utils.py and data_utils.py: one flat array of
    backlinks ordered by the page linked to, the number of backlinks of each
    page, and the inclusive running sum of those numbers. The backlinks of page
    `id` are the entries [SliceStart(cumsum, id), SliceStart(cumsum, id) + count[id]). */
module Csr {

  datatype Layout = Layout(links: seq<nat>, count: seq<nat>, cumsum: seq<nat>)

  /** Concatenation of the per-page lists in page order. */
  function Flatten<T>(lists: seq<seq<T>>): seq<T>
  {
    if lists == [] then [] else Flatten(lists[..|lists| - 1]) + lists[|lists| - 1]
  }

  /** Per-page list lengths. */
  function Counts<T>(lists: seq<seq<T>>): (c: seq<nat>)
    ensures |c| == |lists|
  {
    seq(|lists|, i requires 0 <= i < |lists| => |lists[i]|)
  }

  function Sum(c: seq<nat>): nat
  {
    if c == [] then 0 else Sum(c[..|c| - 1]) + c[|c| - 1]
  }

  /** Inclusive prefix sum (np.cumsum, and the `prevcumsum` running total). */
  function PrefixSum(c: seq<nat>): (p: seq<nat>)
    ensures |p| == |c|
  {
    if c == [] then [] else PrefixSum(c[..|c| - 1]) + [Sum(c)]
  }

  /** Where the backlinks of `id` start: 0 for the first page, otherwise the
      running total of the page before. */
  function SliceStart(cumsum: seq<nat>, id: nat): nat
    requires id <= |cumsum|
  {
    if id == 0 then 0 else cumsum[id - 1]
  }

  /** Python slicing `s[lo:hi]` with non-negative bounds: both ends are
      clamped to the sequence, and an empty or reversed range gives []. */
  function PySlice<T>(s: seq<T>, lo: nat, hi: nat): (r: seq<T>)
    ensures |r| <= |s|
    ensures hi <= |s| && lo <= hi ==> r == s[lo..hi]
  {
    if lo >= |s| || hi <= lo then []
    else if hi <= |s| then s[lo..hi]
    else s[lo..]
  }

  /** The backlink list of page `i` as get_backlinks reads it. */
  function DecodeAt(l: Layout, i: nat): seq<nat>
    requires i < |l.count| && i <= |l.cumsum|
  {
    var start := SliceStart(l.cumsum, i);
    PySlice(l.links, start, start + l.count[i])
  }

  /** All per-page lists, for the pages 0 .. |count| - 1. */
  function Decode(l: Layout): (lists: seq<seq<nat>>)
    requires |l.count| <= |l.cumsum| + 1
    ensures |lists| == |l.count|
  {
    seq(|l.count|, i requires 0 <= i < |l.count| => DecodeAt(l, i))
  }

  /** The layout written for per-page lists: flat array, counts, running sums. */
  function Encode(lists: seq<seq<nat>>): Layout
  {
    Layout(Flatten(lists), Counts(lists), PrefixSum(Counts(lists)))
  }

  /** A layout whose counts and running sums agree with each other and with
      the flat array. */
  predicate Consistent(l: Layout)
  {
    |l.cumsum| == |l.count| && l.cumsum == PrefixSum(l.count) && Sum(l.count) == |l.links|
  }

  // ---------------------------------------------------------------------
  // Facts about the definitions

  lemma {:induction false} PrefixSumAt(c: seq<nat>, i: nat)
    requires i < |c|
    ensures PrefixSum(c)[i] == Sum(c[..i + 1])
  {
    var init := c[..|c| - 1];
    if i < |c| - 1 {
      PrefixSumAt(init, i);
      assert init[..i + 1] == c[..i + 1];
    } else {
      assert c[..i + 1] == c;
    }
  }

  lemma {:induction false} SumMonotone(c: seq<nat>, k: nat)
    requires k <= |c|
    ensures Sum(c[..k]) <= Sum(c)
    decreases |c|
  {
    if k < |c| {
      var init := c[..|c| - 1];
      assert init[..k] == c[..k];
      SumMonotone(init, k);
    } else {
      assert c[..k] == c;
    }
  }

  lemma {:induction false} SumAppend(c: seq<nat>, x: nat)
    ensures Sum(c + [x]) == Sum(c) + x
  {
    assert (c + [x])[..|c|] == c;
  }

  lemma {:induction false} FlattenAppend<T>(lists: seq<seq<T>>, s: seq<T>)
    ensures Flatten(lists + [s]) == Flatten(lists) + s
  {
    assert (lists + [s])[..|lists|] == lists;
  }

  lemma {:induction false} CountsPrefix<T>(lists: seq<seq<T>>, k: nat)
    requires k <= |lists|
    ensures Counts(lists[..k]) == Counts(lists)[..k]
  {
  }

  /** The flat array is as long as all lists together. */
  lemma {:induction false} FlattenLength<T>(lists: seq<seq<T>>)
    ensures |Flatten(lists)| == Sum(Counts(lists))
  {
    if lists != [] {
      var init := lists[..|lists| - 1];
      FlattenLength(init);
      CountsPrefix(lists, |lists| - 1);
      assert Counts(lists) == Counts(init) + [|lists[|lists| - 1]|];
      SumAppend(Counts(init), |lists[|lists| - 1]|);
    }
  }

  lemma {:induction false} FlattenConcat<T>(a: seq<seq<T>>, b: seq<seq<T>>)
    ensures Flatten(a + b) == Flatten(a) + Flatten(b)
    decreases |b|
  {
    if b == [] {
      assert a + b == a;
    } else {
      var init := b[..|b| - 1];
      assert a + b == (a + init) + [b[|b| - 1]];
      FlattenAppend(a + init, b[|b| - 1]);
      FlattenConcat(a, init);
    }
  }

  /** The segment of the flat array that ends at the running total of `id`
      and is `count[id]` long holds exactly the list of `id`. */
  lemma {:induction false} SegmentOfFlatten<T>(lists: seq<seq<T>>, id: nat)
    requires id < |lists|
    ensures |Flatten(lists)| == Sum(Counts(lists))
    ensures |lists[id]| <= PrefixSum(Counts(lists))[id] <= |Flatten(lists)|
    ensures Flatten(lists)[PrefixSum(Counts(lists))[id] - |lists[id]| .. PrefixSum(Counts(lists))[id]] == lists[id]
  {
    var c := Counts(lists);
    FlattenLength(lists);
    PrefixSumAt(c, id);
    CountsPrefix(lists, id + 1);
    FlattenLength(lists[..id + 1]);
    FlattenLength(lists[..id]);
    CountsPrefix(lists, id);
    SumMonotone(c, id + 1);
    var before := Flatten(lists[..id]);
    assert lists[..id + 1] == lists[..id] + [lists[id]];
    FlattenAppend(lists[..id], lists[id]);
    assert Flatten(lists[..id + 1]) == before + lists[id];
    assert c[..id + 1] == c[..id] + [c[id]];
    SumAppend(c[..id], c[id]);
    assert lists == lists[..id + 1] + lists[id + 1..];
    FlattenConcat(lists[..id + 1], lists[id + 1..]);
  }

  lemma {:induction false} SliceStartOfEncode(lists: seq<seq<nat>>, id: nat)
    requires id < |lists|
    ensures SliceStart(PrefixSum(Counts(lists)), id) == PrefixSum(Counts(lists))[id] - |lists[id]|
  {
    var c := Counts(lists);
    PrefixSumAt(c, id);
    assert c[..id + 1] == c[..id] + [c[id]];
    SumAppend(c[..id], c[id]);
    if id > 0 {
      PrefixSumAt(c, id - 1);
      assert c[..id - 1 + 1] == c[..id];
    }
  }

  /** Decoding what was encoded gives back the per-page lists. */
  lemma {:induction false} DecodeEncode(lists: seq<seq<nat>>)
    ensures Decode(Encode(lists)) == lists
  {
    var l := Encode(lists);
    forall id | 0 <= id < |lists|
      ensures DecodeAt(l, id) == lists[id]
    {
      SegmentOfFlatten(lists, id);
      SliceStartOfEncode(lists, id);
    }
  }

  lemma {:induction false} PrefixSumPrefix(c: seq<nat>, k: nat)
    requires k <= |c|
    ensures PrefixSum(c[..k]) == PrefixSum(c)[..k]
    decreases |c|
  {
    if k < |c| {
      var init := c[..|c| - 1];
      assert init[..k] == c[..k];
      PrefixSumPrefix(init, k);
    } else {
      assert c[..k] == c;
    }
  }

  /** For a consistent layout, page `i` gets exactly `count[i]` backlinks and
      the decoded lists, put back together in page order, are the flat array. */
  lemma {:induction false} DecodeTiles(l: Layout)
    requires Consistent(l)
    ensures forall i :: 0 <= i < |l.count| ==> |Decode(l)[i]| == l.count[i]
    ensures Flatten(Decode(l)) == l.links
  {
    var d := Decode(l);
    var k := 0;
    while k < |l.count|
      invariant 0 <= k <= |l.count|
      invariant Sum(l.count[..k]) <= |l.links|
      invariant Flatten(d[..k]) == l.links[..Sum(l.count[..k])]
      invariant forall i :: 0 <= i < k ==> |d[i]| == l.count[i]
    {
      DecodeTilesStep(l, k);
      k := k + 1;
    }
    assert d[..k] == d;
    assert l.count[..k] == l.count;
  }

  /** Page `k` takes the next `count[k]` entries of the flat array. */
  lemma DecodeTilesStep(l: Layout, k: nat)
    requires Consistent(l) && k < |l.count| && Sum(l.count[..k]) <= |l.links|
    requires Flatten(Decode(l)[..k]) == l.links[..Sum(l.count[..k])]
    ensures Sum(l.count[..k + 1]) <= |l.links|
    ensures |Decode(l)[k]| == l.count[k]
    ensures Flatten(Decode(l)[..k + 1]) == l.links[..Sum(l.count[..k + 1])]
  {
    var d := Decode(l);
    SliceStartIsSum(l, k);
    SumMonotone(l.count, k + 1);
    assert l.count[..k + 1] == l.count[..k] + [l.count[k]];
    SumAppend(l.count[..k], l.count[k]);
    var start := Sum(l.count[..k]);
    var end := start + l.count[k];
    assert d[k] == l.links[start .. end];
    assert d[..k + 1] == d[..k] + [d[k]];
    FlattenAppend(d[..k], d[k]);
    assert l.links[..start] + l.links[start .. end] == l.links[..end];
  }

  lemma {:induction false} SliceStartIsSum(l: Layout, k: nat)
    requires Consistent(l) && k < |l.count|
    ensures SliceStart(l.cumsum, k) == Sum(l.count[..k])
  {
    if k > 0 {
      PrefixSumAt(l.count, k - 1);
      assert l.count[..k - 1 + 1] == l.count[..k];
    }
  }

  /** The example from the header of build_structures.go: 0 links to 1 and 2,
      1 links to 3, 2 links to 1. */
  lemma WorkedExample()
    ensures Encode([[], [0, 2], [0], [1]]) == Layout([0, 2, 0, 1], [0, 2, 1, 1], [0, 2, 3, 4])
  {
    var lists: seq<seq<nat>> := [[], [0, 2], [0], [1]];
    assert lists[..3] == [[], [0, 2], [0]];
    assert lists[..3][..2] == [[], [0, 2]];
    assert lists[..3][..2][..1] == [[]];
    var c := Counts(lists);
    assert c == [0, 2, 1, 1];
    assert c[..3] == [0, 2, 1];
    assert c[..3][..2] == [0, 2];
    assert c[..3][..2][..1] == [0];
    assert Sum(c[..3][..2][..1]) == 0;
    assert Sum(c[..3][..2]) == 2;
    assert Sum(c[..3]) == 3;
    assert Sum(c) == 4;
    assert PrefixSum(c[..3][..2][..1]) == [0];
    assert PrefixSum(c[..3][..2]) == [0, 2];
    assert PrefixSum(c[..3]) == [0, 2, 3];
    assert Flatten(lists[..3][..2][..1]) == [];
    assert Flatten(lists[..3][..2]) == [0, 2];
    assert Flatten(lists[..3]) == [0, 2, 0];
  }
}
