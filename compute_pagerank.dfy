/** compute_pagerank/compute_pagerank.go run on one thread: counting the
    pages, the uniform start, the in-place sweep, the difference between two
    sweeps, and one turn of the outer loop. Ranks are reals; the float32 bit
    patterns the Go code stores are modelled only where the difference is
    computed on them. */
module ComputePagerank {
  import opened Rank
  import opened Wire

  /** The loop that counts the pages with a positive outlink count. */
  method CountPages(outCount: seq<nat>) returns (numPages: nat)
    ensures numPages == NumPages(outCount)
  {
    numPages := 0;
    var i := 0;
    while i < |outCount|
      invariant 0 <= i <= |outCount|
      invariant numPages == NumPages(outCount[..i])
    {
      assert outCount[..i + 1][..i] == outCount[..i];
      if outCount[i] > 0 {
        numPages := numPages + 1;
      }
      i := i + 1;
    }
    assert outCount[..i] == outCount;
  }

  /** Both rank arrays get one entry per page of the backlink counts; every
      entry of the old ranks is 1/n and the current ranks start as a copy. */
  method InitRanks(n: nat) returns (oldRanks: array<real>, ranks: array<real>)
    ensures fresh(oldRanks) && fresh(ranks) && oldRanks != ranks
    ensures oldRanks.Length == n && ranks.Length == n
    ensures forall i :: 0 <= i < n ==> oldRanks[i] == 1.0 / n as real
    ensures ranks[..] == oldRanks[..]
  {
    oldRanks := new real[n](_ => 0.0);
    ranks := new real[n](_ => 0.0);
    var i := 0;
    while i < n
      invariant 0 <= i <= n
      invariant forall k :: 0 <= k < i ==> oldRanks[k] == 1.0 / n as real
    {
      oldRanks[i] := 1.0 / n as real;
      i := i + 1;
    }
    forall k | 0 <= k < n {
      ranks[k] := oldRanks[k];
    }
  }

  /** pagerank_iter on one thread: ids in increasing order, each written
      once (the compare-and-swap always succeeds), each computed from the
      current contents of the array. */
  method Sweep(ranks: array<real>, g: Graph, numPages: nat, damping: real)
    requires Readable(g, ranks.Length) && numPages > 0
    modifies ranks
    ensures ranks[..] == InPlaceSweep(old(ranks[..]), g, numPages, damping)
  {
    var dampingSum := (1.0 - damping) / numPages as real;
    ghost var r0 := ranks[..];
    var id := 0;
    while id < ranks.Length
      invariant 0 <= id <= ranks.Length
      invariant ranks[..] == InPlacePrefix(r0, g, numPages, damping, id)
    {
      var sum := SumBacklinks(ranks, g, id);
      assert dampingSum + damping * sum == NewRank(ranks[..], g, numPages, damping, id);
      ranks[id] := dampingSum + damping * sum;
      id := id + 1;
    }
  }

  /** The inner loop of pagerank_iter: the terms rank[b] / outlinks_count[b]
      over the backlink slice of `id`, read from the current array. */
  method SumBacklinks(ranks: array<real>, g: Graph, id: nat) returns (sum: real)
    requires Readable(g, ranks.Length) && id < ranks.Length
    ensures sum == BacklinkSum(ranks[..], g, id)
  {
    var start := if id == 0 then 0 else g.cumsum[id - 1];
    var end := start + g.count[id];
    assert end == SliceEnd(g, id) <= |g.links|;
    sum := 0.0;
    var i := start;
    while i < end
      invariant start <= i <= end
      invariant sum == SumSlice(UpdateTerms(ranks[..], g), start, i)
    {
      var link := g.links[i];
      assert Term(ranks[..], g, i) == ranks[link] / g.outCount[link] as real;
      sum := sum + ranks[link] / g.outCount[link] as real;
      i := i + 1;
    }
  }

  // ---------------------------------------------------------------------
  // compute_difference as written: it subtracts the uint32 bit patterns

  /** One term of compute_difference: uint32 subtraction wraps modulo 2^32,
      and math.Abs of the result changes nothing. */
  function WordTerm(p: u32, o: u32): (t: u32)
    ensures t == 0 <==> p == o
    ensures p >= o ==> t == p - o
    ensures p < o ==> t == WORD_RANGE - (o - p)
  {
    (p - o) % WORD_RANGE
  }

  function WordSum(p: seq<u32>, o: seq<u32>, k: nat): nat
    requires k <= |p| && k <= |o|
  {
    if k == 0 then 0 else WordSum(p, o, k - 1) + WordTerm(p[k - 1], o[k - 1])
  }

  /** compute_difference on the stored words. */
  method WordDifference(p: seq<u32>, o: seq<u32>) returns (diff: real)
    requires 0 < |p| <= |o|
    ensures diff == WordSum(p, o, |p|) as real / |p| as real
  {
    var total := 0;
    var i := 0;
    while i < |p|
      invariant 0 <= i <= |p|
      invariant total == WordSum(p, o, i)
    {
      total := total + WordTerm(p[i], o[i]);
      i := i + 1;
    }
    diff := total as real / |p| as real;
  }

  lemma {:induction false} WordSumZeroIff(p: seq<u32>, o: seq<u32>, k: nat)
    requires k <= |p| && k <= |o|
    ensures WordSum(p, o, k) == 0 <==> p[..k] == o[..k]
  {
    if k > 0 {
      WordSumZeroIff(p, o, k - 1);
      assert p[..k] == p[..k - 1] + [p[k - 1]];
      assert o[..k] == o[..k - 1] + [o[k - 1]];
      if p[..k] == o[..k] {
        assert p[..k - 1] == p[..k][..k - 1];
        assert o[..k - 1] == o[..k][..k - 1];
      }
    }
  }

  /** The terms are whole numbers, so on fewer than ten million pages the
      average word difference is below CHANGE_THRESHOLD only when the two
      arrays are bit for bit identical. */
  lemma WordDifferenceBelowThresholdIff(p: seq<u32>, o: seq<u32>)
    requires 0 < |p| <= |o| && |p| <= 10000000
    ensures WordSum(p, o, |p|) as real / |p| as real < CHANGE_THRESHOLD <==> p == o[..|p|]
  {
    WordSumZeroIff(p, o, |p|);
    assert p[..|p|] == p;
    QuotientBelowThresholdIff(WordSum(p, o, |p|), |p|);
  }

  /** A whole number over at most ten million is below CHANGE_THRESHOLD
      exactly when it is zero. */
  lemma QuotientBelowThresholdIff(k: nat, n: nat)
    requires 0 < n <= 10000000
    ensures k as real / n as real < CHANGE_THRESHOLD <==> k == 0
  {
    if k > 0 {
      QuotientAtLeastThreshold(k as real, n as real);
    }
  }

  lemma QuotientAtLeastThreshold(s: real, n: real)
    requires s >= 1.0 && 0.0 < n <= 10000000.0
    ensures s / n >= CHANGE_THRESHOLD
  {
    assert (s / n) * n == s;
  }

  /** 2^e for any integer e. */
  function Pow2(e: int): (r: real)
    ensures r > 0.0
    decreases if e < 0 then -e else e
  {
    if e == 0 then 1.0 else if e > 0 then 2.0 * Pow2(e - 1) else Pow2(e + 1) / 2.0
  }

  /** The value of a normal (not zero, subnormal, infinite or NaN) float32
      bit pattern, as math.Float32frombits reads it. */
  function Float32Value(w: u32): real
    requires 0 < (w / 0x80_0000) % 256 < 255
  {
    var sign := if w >= 0x8000_0000 then -1.0 else 1.0;
    var exponent := (w / 0x80_0000) % 256;
    var mantissa := w % 0x80_0000;
    sign * (1.0 + mantissa as real / 8388608.0) * Pow2(exponent - 127)
  }

  lemma HalfValues()
    ensures Float32Value(0x3F00_0000) == 0.5
    ensures Float32Value(0x3F00_0001) == 0.5 + 1.0 / 16777216.0
  {
    assert (0x3F00_0000 / 0x80_0000) % 256 == 126;
    assert (0x3F00_0001 / 0x80_0000) % 256 == 126;
    assert Pow2(-1) == 0.5;
  }

  /** 0x3F000000 is 0.5 and 0x3F000001 the next float32 above it. A rank
      that falls from the latter to the former changes by 2^-24, below
      CHANGE_THRESHOLD, yet the word difference reports 2^32 - 1. */
  lemma WordDifferenceOnDecrease()
    ensures Float32Value(0x3F00_0000) == 0.5 && Float32Value(0x3F00_0001) == 0.5 + 1.0 / 16777216.0
    ensures MeanAbsDiff([0.5], [0.5 + 1.0 / 16777216.0]) == 1.0 / 16777216.0 < CHANGE_THRESHOLD
    ensures WordSum([0x3F00_0000], [0x3F00_0001], 1) as real / 1.0 == 4294967295.0
  {
    HalfValues();
    SingleDifference(0.5, 0.5 + 1.0 / 16777216.0);
    WordChange();
  }

  lemma SingleDifference(a: real, b: real)
    ensures MeanAbsDiff([a], [b]) == Abs(a - b)
  {
    assert SumAbsDiff([a], [b], 0) == 0.0;
  }

  lemma WordChange()
    ensures WordSum([0x3F00_0000], [0x3F00_0001], 1) == 4294967295
  {
    assert WordTerm(0x3F00_0000, 0x3F00_0001) == 4294967295;
  }

  /** The ranks after `k` in-place sweeps. */
  function Sweeps(r: seq<real>, g: Graph, numPages: nat, damping: real, k: nat): (s: seq<real>)
    requires Readable(g, |r|) && numPages > 0
    ensures |s| == |r|
  {
    if k == 0 then r else InPlaceSweep(Sweeps(r, g, numPages, damping, k - 1), g, numPages, damping)
  }

  /** Ranks the sweep leaves unchanged stay unchanged however many sweeps
      run. */
  lemma {:induction false} SweepsKeepFixedPoint(r: seq<real>, g: Graph, numPages: nat, damping: real, k: nat)
    requires Readable(g, |r|) && numPages > 0
    requires InPlaceSweep(r, g, numPages, damping) == r
    ensures Sweeps(r, g, numPages, damping, k) == r
  {
    if k > 0 {
      SweepsKeepFixedPoint(r, g, numPages, damping, k - 1);
    }
  }

  /** From non-negative ranks and a damping factor in [0, 1), every page
      has a rank of at least (1 - damping) / num_pages after one or more
      sweeps. */
  lemma {:induction false} SweepsStayPositive(r: seq<real>, g: Graph, numPages: nat, damping: real, k: nat)
    requires Readable(g, |r|) && numPages > 0 && k > 0
    requires 0.0 <= damping < 1.0 && forall j :: 0 <= j < |r| ==> r[j] >= 0.0
    ensures forall id :: 0 <= id < |r| ==> Sweeps(r, g, numPages, damping, k)[id] >= (1.0 - damping) / numPages as real > 0.0
  {
    var prev := Sweeps(r, g, numPages, damping, k - 1);
    if k > 1 {
      SweepsStayPositive(r, g, numPages, damping, k - 1);
    }
    SweepsPositive(prev, g, numPages, damping);
  }

  /** The bit patterns stored for the ranks `s`, `bits` standing for
      math.Float32bits of each rank. */
  function Words(bits: real -> u32, s: seq<real>): (w: seq<u32>)
    ensures |w| == |s|
    ensures forall i :: 0 <= i < |s| ==> w[i] == bits(s[i])
  {
    seq(|s|, i requires 0 <= i < |s| => bits(s[i]))
  }

  /** Where the encoding tells apart the old and new rank of every page,
      the stored words are unchanged exactly when the ranks are. */
  lemma WordsUnchangedIff(bits: real -> u32, p: seq<real>, o: seq<real>)
    requires |p| == |o|
    requires forall i :: 0 <= i < |p| ==> (bits(p[i]) == bits(o[i]) <==> p[i] == o[i])
    ensures Words(bits, p) == Words(bits, o) <==> p == o
  {
    if Words(bits, p) == Words(bits, o) {
      forall i | 0 <= i < |p|
        ensures p[i] == o[i]
      {
        assert Words(bits, p)[i] == Words(bits, o)[i];
      }
    }
  }

  /** Ten in-place sweeps: the ten pagerank_iter calls of one turn of the
      outer loop, run one after another. */
  method TenSweeps(ranks: array<real>, g: Graph, numPages: nat)
    requires Readable(g, ranks.Length) && numPages > 0
    modifies ranks
    ensures ranks[..] == Sweeps(old(ranks[..]), g, numPages, DAMPING, 10)
  {
    ghost var r0 := ranks[..];
    var k := 0;
    while k < 10
      invariant 0 <= k <= 10
      invariant ranks[..] == Sweeps(r0, g, numPages, DAMPING, k)
    {
      Sweep(ranks, g, numPages, DAMPING);
      k := k + 1;
    }
  }

  /** One turn of the outer loop of main as written: ten sweeps, then
      compute_difference on the stored words of the ranks; stop when it is
      below CHANGE_THRESHOLD, otherwise copy the ranks into the old ranks.
      On at most ten million pages it stops only when every stored word is
      unchanged. */
  method Round(ranks: array<real>, oldRanks: array<real>, g: Graph, numPages: nat, bits: real -> u32) returns (stop: bool)
    requires ranks != oldRanks && 0 < ranks.Length == oldRanks.Length
    requires Readable(g, ranks.Length) && numPages > 0
    modifies ranks, oldRanks
    ensures ranks[..] == Sweeps(old(ranks[..]), g, numPages, DAMPING, 10)
    ensures var w := Words(bits, ranks[..]);
            stop <==> WordSum(w, Words(bits, old(oldRanks[..])), |w|) as real / |w| as real < CHANGE_THRESHOLD
    ensures ranks.Length <= 10000000 ==> (stop <==> Words(bits, ranks[..]) == Words(bits, old(oldRanks[..])))
    ensures oldRanks[..] == if stop then old(oldRanks[..]) else ranks[..]
  {
    TenSweeps(ranks, g, numPages);
    var words := Words(bits, ranks[..]);
    var oldWords := Words(bits, oldRanks[..]);
    var diff := WordDifference(words, oldWords);
    if ranks.Length <= 10000000 {
      WordDifferenceBelowThresholdIff(words, oldWords);
      assert oldWords[..|words|] == oldWords;
    }
    if diff < CHANGE_THRESHOLD {
      return true;
    }
    forall k | 0 <= k < oldRanks.Length {
      oldRanks[k] := ranks[k];
    }
    return false;
  }

  /** The turn as evidently intended: the same ten sweeps, with the
      difference measured on the rank values as pagerank_utils.py does. */
  method RoundByValue(ranks: array<real>, oldRanks: array<real>, g: Graph, numPages: nat) returns (stop: bool)
    requires ranks != oldRanks && 0 < ranks.Length == oldRanks.Length
    requires Readable(g, ranks.Length) && numPages > 0
    modifies ranks, oldRanks
    ensures ranks[..] == Sweeps(old(ranks[..]), g, numPages, DAMPING, 10)
    ensures stop <==> MeanAbsDiff(ranks[..], old(oldRanks[..])) < CHANGE_THRESHOLD
    ensures oldRanks[..] == if stop then old(oldRanks[..]) else ranks[..]
  {
    TenSweeps(ranks, g, numPages);
    var diff := MeanAbsDiff(ranks[..], oldRanks[..]);
    if diff < CHANGE_THRESHOLD {
      return true;
    }
    forall k | 0 <= k < oldRanks.Length {
      oldRanks[k] := ranks[k];
    }
    return false;
  }
}
