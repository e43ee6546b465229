/** data/scam_pagerank2.py: inflate_page_rank (the boost estimate, the sort
    by estimated boost and the greedy choice of pages to edit) and the part of
    evaluate_scam that derives the edited graph and normalises the new ranks.
    Dicts keyed by page id 0 .. n-1 are sequences; the order in which the
    editable pages come out of the backlinks dict is an input sequence. */
module ScamPagerank {
  import opened Csr
  import opened Rank
  import opened DataUtils

  // ---------------------------------------------------------------------
  // The estimates

  /** The boost a link from `id` is estimated to give:
      DAMPING * rank / (outlinks + 1). */
  function Boost(ranks: seq<real>, outCount: seq<nat>, id: nat): real
    requires id < |ranks| && id < |outCount|
  {
    DAMPING * ranks[id] / (outCount[id] + 1) as real
  }

  /** The sort key: the boost of every page with both a rank and an outlink
      count. */
  function BoostKey(ranks: seq<real>, outCount: seq<nat>): nat -> real
  {
    (id: nat) => if id < |ranks| && id < |outCount| then Boost(ranks, outCount, id) else 0.0
  }

  /** The boost of a page with a non-negative rank is non-negative and at
      most DAMPING times its rank, since the denominator is at least 1. */
  lemma BoostBounds(ranks: seq<real>, outCount: seq<nat>, id: nat)
    requires id < |ranks| && id < |outCount| && ranks[id] >= 0.0
    ensures 0.0 <= Boost(ranks, outCount, id) <= DAMPING * ranks[id]
  {
    var d := (outCount[id] + 1) as real;
    var x := DAMPING * ranks[id];
    assert d >= 1.0;
    QuotientBounds(x, d, Boost(ranks, outCount, id));
  }

  lemma QuotientBounds(x: real, d: real, q: real)
    requires x >= 0.0 && d >= 1.0 && q == x / d
    ensures 0.0 <= q <= x
  {
    assert q * d == x;
  }

  /** raw_pagerank_delta: how much raw rank the page must gain so that its
      normalised rank grows from `normP` to `amount`. */
  function TargetDelta(rankP: real, normP: real, amount: real): real
    requires normP != 0.0
  {
    rankP * (amount / normP) - rankP
  }

  /** Gaining the delta multiplies the raw rank by amount / normP; with
      positive ranks the delta is positive exactly when the target is above
      the current normalised rank. */
  lemma TargetDeltaMeaning(rankP: real, normP: real, amount: real)
    requires rankP > 0.0 && normP > 0.0
    ensures (rankP + TargetDelta(rankP, normP, amount)) / rankP == amount / normP
    ensures TargetDelta(rankP, normP, amount) > 0.0 <==> amount > normP
  {
    var f := amount / normP;
    assert rankP + TargetDelta(rankP, normP, amount) == rankP * f;
    assert (rankP * f) / rankP == f;
    FactorAboveOne(amount, normP, f);
    ProductAboveSelf(rankP, f);
  }

  lemma FactorAboveOne(amount: real, normP: real, f: real)
    requires normP > 0.0 && f == amount / normP
    ensures f > 1.0 <==> amount > normP
  {
    assert f * normP == amount;
    if f > 1.0 {
      assert f * normP > 1.0 * normP;
    }
    if amount > normP {
      assert f * normP > normP;
    }
  }

  lemma ProductAboveSelf(r: real, f: real)
    requires r > 0.0
    ensures r * f - r > 0.0 <==> f > 1.0
  {
    assert r * f - r == r * (f - 1.0);
  }

  // ---------------------------------------------------------------------
  // sorted(editable_pages, key=pagerank_boost, reverse=True)

  predicate SortedDesc(s: seq<nat>, key: nat -> real)
  {
    forall i, j :: 0 <= i < j < |s| ==> key(s[i]) >= key(s[j])
  }

  /** Put `x` after every element whose key is at least key(x). */
  function Insert(s: seq<nat>, x: nat, key: nat -> real): (r: seq<nat>)
    ensures |r| == |s| + 1
  {
    if s == [] then [x]
    else if key(s[|s| - 1]) >= key(x) then s + [x]
    else Insert(s[..|s| - 1], x, key) + [s[|s| - 1]]
  }

  /** A stable sort by decreasing key: equal keys keep their input order. */
  function SortDesc(xs: seq<nat>, key: nat -> real): (r: seq<nat>)
    ensures |r| == |xs|
  {
    if xs == [] then [] else Insert(SortDesc(xs[..|xs| - 1], key), xs[|xs| - 1], key)
  }

  /** The elements whose key is `v`, in order. */
  function WithKey(s: seq<nat>, key: nat -> real, v: real): seq<nat>
  {
    if s == [] then []
    else WithKey(s[..|s| - 1], key, v) + (if key(s[|s| - 1]) == v then [s[|s| - 1]] else [])
  }

  lemma {:induction false} InsertPermutes(s: seq<nat>, x: nat, key: nat -> real)
    ensures multiset(Insert(s, x, key)) == multiset(s) + multiset{x}
  {
    if s != [] && key(s[|s| - 1]) < key(x) {
      var init := s[..|s| - 1];
      InsertPermutes(init, x, key);
      assert s == init + [s[|s| - 1]];
    }
  }

  lemma SortedAppend(s: seq<nat>, y: nat, key: nat -> real)
    requires SortedDesc(s, key)
    requires forall i :: 0 <= i < |s| ==> key(s[i]) >= key(y)
    ensures SortedDesc(s + [y], key)
  {
  }

  lemma {:induction false} InsertSorted(s: seq<nat>, x: nat, key: nat -> real)
    requires SortedDesc(s, key)
    ensures SortedDesc(Insert(s, x, key), key)
  {
    if s != [] {
      var init := s[..|s| - 1];
      var last := s[|s| - 1];
      if key(last) >= key(x) {
        SortedAppend(s, x, key);
      } else {
        InsertSorted(init, x, key);
        InsertPermutes(init, x, key);
        var r := Insert(init, x, key);
        forall i | 0 <= i < |r|
          ensures key(r[i]) >= key(last)
        {
          assert r[i] in multiset(r);
          if r[i] != x {
            assert r[i] in multiset(init);
            var k :| 0 <= k < |init| && init[k] == r[i];
            assert s[k] == r[i];
          }
        }
        SortedAppend(r, last, key);
      }
    }
  }

  lemma {:induction false} InsertStable(s: seq<nat>, x: nat, key: nat -> real, v: real)
    ensures WithKey(Insert(s, x, key), key, v) == WithKey(s, key, v) + (if key(x) == v then [x] else [])
  {
    if s != [] {
      var init := s[..|s| - 1];
      var last := s[|s| - 1];
      if key(last) >= key(x) {
        assert (s + [x])[..|s|] == s;
      } else {
        InsertStable(init, x, key, v);
        var r := Insert(init, x, key);
        assert (r + [last])[..|r|] == r;
      }
    }
  }

  /** The sort returns a permutation of its input, ordered by non-increasing
      key, and keeps the input order among pages with equal keys. */
  lemma {:induction false} SortDescCorrect(xs: seq<nat>, key: nat -> real, v: real)
    ensures multiset(SortDesc(xs, key)) == multiset(xs)
    ensures SortedDesc(SortDesc(xs, key), key)
    ensures WithKey(SortDesc(xs, key), key, v) == WithKey(xs, key, v)
  {
    if xs != [] {
      var init := xs[..|xs| - 1];
      var last := xs[|xs| - 1];
      SortDescCorrect(init, key, v);
      InsertPermutes(SortDesc(init, key), last, key);
      InsertSorted(SortDesc(init, key), last, key);
      InsertStable(SortDesc(init, key), last, key, v);
      assert xs == init + [last];
    }
  }

  // ---------------------------------------------------------------------
  // The greedy choice

  datatype Selection = Selection(total: real, pages: seq<nat>)

  /** The state of the selection loop after it has looked at sorted[..i]:
      once the total exceeds the delta nothing changes any more (the loop
      has broken out), a page that already links to the target is skipped,
      and any other page is added with its boost. */
  function Greedy(sorted: seq<nat>, existing: seq<nat>, key: nat -> real, delta: real, i: nat): Selection
    requires i <= |sorted|
  {
    if i == 0 then Selection(0.0, [])
    else
      var s := Greedy(sorted, existing, key, delta, i - 1);
      var id := sorted[i - 1];
      if s.total > delta || id in existing then s
      else Selection(s.total + key(id), s.pages + [id])
  }

  /** The pages of `s` that do not already link to the target. */
  function NotIn(s: seq<nat>, existing: seq<nat>): (r: seq<nat>)
    ensures forall y :: y in r <==> y in s && y !in existing
  {
    if s == [] then []
    else
      var init := s[..|s| - 1];
      var last := s[|s| - 1];
      assert forall y :: y in s <==> y in init || y == last by {
        assert s == init + [last];
      }
      NotIn(init, existing) + (if last in existing then [] else [last])
  }

  function SumKeys(pages: seq<nat>, key: nat -> real): real
  {
    if pages == [] then 0.0 else SumKeys(pages[..|pages| - 1], key) + key(pages[|pages| - 1])
  }

  /** What the selection loop guarantees after looking at sorted[..i]: the
      pages chosen are exactly the eligible pages of some prefix sorted[..m]
      (m < i only once the total has exceeded the delta), the total is their
      boost, and the total was at most the delta before every addition. */
  predicate GreedyHolds(sorted: seq<nat>, existing: seq<nat>, key: nat -> real, delta: real, i: nat, s: Selection)
    requires i <= |sorted|
  {
    && s.total == SumKeys(s.pages, key)
    && (forall j :: 0 <= j < |s.pages| ==> SumKeys(s.pages[..j], key) <= delta)
    && exists m :: 0 <= m <= i && s.pages == NotIn(sorted[..m], existing) && (m < i ==> s.total > delta)
  }

  lemma {:induction false} GreedyInvariant(sorted: seq<nat>, existing: seq<nat>, key: nat -> real, delta: real, i: nat)
    requires i <= |sorted|
    ensures GreedyHolds(sorted, existing, key, delta, i, Greedy(sorted, existing, key, delta, i))
  {
    if i == 0 {
      assert Greedy(sorted, existing, key, delta, 0).pages == NotIn(sorted[..0], existing);
    } else {
      GreedyInvariant(sorted, existing, key, delta, i - 1);
      GreedyStep(sorted, existing, key, delta, i);
    }
  }

  lemma GreedyStep(sorted: seq<nat>, existing: seq<nat>, key: nat -> real, delta: real, i: nat)
    requires 0 < i <= |sorted|
    requires GreedyHolds(sorted, existing, key, delta, i - 1, Greedy(sorted, existing, key, delta, i - 1))
    ensures GreedyHolds(sorted, existing, key, delta, i, Greedy(sorted, existing, key, delta, i))
  {
    var s := Greedy(sorted, existing, key, delta, i - 1);
    var m :| 0 <= m <= i - 1 && s.pages == NotIn(sorted[..m], existing) && (m < i - 1 ==> s.total > delta);
    var id := sorted[i - 1];
    if s.total > delta {
      assert Greedy(sorted, existing, key, delta, i) == s;
    } else {
      assert m == i - 1;
      if id in existing {
        assert Greedy(sorted, existing, key, delta, i) == s;
        NotInStep(sorted, existing, i);
      } else {
        GreedyAdd(sorted, existing, key, delta, i);
      }
    }
  }

  lemma GreedyAdd(sorted: seq<nat>, existing: seq<nat>, key: nat -> real, delta: real, i: nat)
    requires 0 < i <= |sorted|
    requires var s := Greedy(sorted, existing, key, delta, i - 1);
             && s.total == SumKeys(s.pages, key) <= delta
             && (forall j :: 0 <= j < |s.pages| ==> SumKeys(s.pages[..j], key) <= delta)
             && s.pages == NotIn(sorted[..i - 1], existing)
    requires sorted[i - 1] !in existing
    ensures GreedyHolds(sorted, existing, key, delta, i, Greedy(sorted, existing, key, delta, i))
  {
    var s := Greedy(sorted, existing, key, delta, i - 1);
    GreedyAddShape(sorted, existing, key, delta, i);
    PrefixSumsBounded(s.pages, sorted[i - 1], key, delta);
    var next := Greedy(sorted, existing, key, delta, i);
    assert 0 <= i <= i && next.pages == NotIn(sorted[..i], existing);
  }

  /** Adding an eligible page: it is appended, its boost is added, and the
      pages are still the eligible ones of the prefix looked at. */
  lemma GreedyAddShape(sorted: seq<nat>, existing: seq<nat>, key: nat -> real, delta: real, i: nat)
    requires 0 < i <= |sorted|
    requires var s := Greedy(sorted, existing, key, delta, i - 1);
             s.total == SumKeys(s.pages, key) <= delta && s.pages == NotIn(sorted[..i - 1], existing)
    requires sorted[i - 1] !in existing
    ensures var s := Greedy(sorted, existing, key, delta, i - 1);
            var next := Greedy(sorted, existing, key, delta, i);
            && next.pages == s.pages + [sorted[i - 1]] == NotIn(sorted[..i], existing)
            && next.total == SumKeys(next.pages, key)
  {
    var s := Greedy(sorted, existing, key, delta, i - 1);
    NotInStep(sorted, existing, i);
    SumKeysAppend(s.pages, sorted[i - 1], key);
  }

  lemma SumKeysAppend(pages: seq<nat>, id: nat, key: nat -> real)
    ensures SumKeys(pages + [id], key) == SumKeys(pages, key) + key(id)
  {
    assert (pages + [id])[..|pages|] == pages;
  }

  lemma NotInStep(sorted: seq<nat>, existing: seq<nat>, i: nat)
    requires 0 < i <= |sorted|
    ensures NotIn(sorted[..i], existing)
         == NotIn(sorted[..i - 1], existing) + (if sorted[i - 1] in existing then [] else [sorted[i - 1]])
  {
    assert sorted[..i][..i - 1] == sorted[..i - 1];
  }

  lemma PrefixSumsBounded(pages: seq<nat>, id: nat, key: nat -> real, delta: real)
    requires SumKeys(pages, key) <= delta
    requires forall j :: 0 <= j < |pages| ==> SumKeys(pages[..j], key) <= delta
    ensures forall j :: 0 <= j < |pages + [id]| ==> SumKeys((pages + [id])[..j], key) <= delta
  {
    var p := pages + [id];
    forall j | 0 <= j < |p|
      ensures SumKeys(p[..j], key) <= delta
    {
      if j < |pages| {
        assert p[..j] == pages[..j];
      } else {
        assert p[..j] == pages;
      }
    }
  }

  /** The pages chosen: never a page that already links to the target, in
      the order of the sort (so by non-increasing boost), each one added while
      the total was at most the delta, and fewer than all eligible pages only
      when the total ended above the delta. */
  lemma GreedyCorrect(sorted: seq<nat>, existing: seq<nat>, key: nat -> real, delta: real)
    requires SortedDesc(sorted, key)
    ensures var s := Greedy(sorted, existing, key, delta, |sorted|);
            && (forall j :: 0 <= j < |s.pages| ==> s.pages[j] in sorted && s.pages[j] !in existing)
            && SortedDesc(s.pages, key)
            && s.total == SumKeys(s.pages, key)
            && (forall j :: 0 <= j < |s.pages| ==> SumKeys(s.pages[..j], key) <= delta)
            && (|s.pages| < |NotIn(sorted, existing)| ==> s.total > delta)
  {
    GreedyInvariant(sorted, existing, key, delta, |sorted|);
    var s := Greedy(sorted, existing, key, delta, |sorted|);
    assert GreedyHolds(sorted, existing, key, delta, |sorted|, s);
    var m :| 0 <= m <= |sorted| && s.pages == NotIn(sorted[..m], existing) && (m < |sorted| ==> s.total > delta);
    PrefixSorted(sorted, key, m);
    NotInSorted(sorted[..m], existing, key);
    forall j | 0 <= j < |s.pages|
      ensures s.pages[j] in sorted
    {
      assert s.pages[j] in sorted[..m];
    }
    if m == |sorted| {
      assert sorted[..m] == sorted;
    }
  }

  lemma PrefixSorted(s: seq<nat>, key: nat -> real, m: nat)
    requires SortedDesc(s, key) && m <= |s|
    ensures SortedDesc(s[..m], key)
  {
  }

  lemma {:induction false} NotInSorted(s: seq<nat>, existing: seq<nat>, key: nat -> real)
    requires SortedDesc(s, key)
    ensures SortedDesc(NotIn(s, existing), key)
  {
    if s != [] {
      var init := s[..|s| - 1];
      var last := s[|s| - 1];
      NotInSorted(init, existing, key);
      var r := NotIn(init, existing);
      forall i | 0 <= i < |r|
        ensures key(r[i]) >= key(last)
      {
        assert r[i] in init;
        var k :| 0 <= k < |init| && init[k] == r[i];
        assert s[k] == r[i];
      }
      SortedAppend(r, last, key);
    }
  }

  /** When the target is not above the current normalised rank the delta is
      negative, the loop breaks at once and nothing is edited. */
  lemma NothingBelowCurrent(sorted: seq<nat>, existing: seq<nat>, key: nat -> real, delta: real)
    requires delta < 0.0
    ensures Greedy(sorted, existing, key, delta, |sorted|) == Selection(0.0, [])
  {
    var i := 0;
    while i < |sorted|
      invariant 0 <= i <= |sorted|
      invariant Greedy(sorted, existing, key, delta, i) == Selection(0.0, [])
    {
      i := i + 1;
    }
  }

  lemma {:induction false} GreedyStays(sorted: seq<nat>, existing: seq<nat>, key: nat -> real, delta: real, i: nat, k: nat)
    requires i <= k <= |sorted|
    requires Greedy(sorted, existing, key, delta, i).total > delta
    ensures Greedy(sorted, existing, key, delta, k) == Greedy(sorted, existing, key, delta, i)
    decreases k
  {
    if k > i {
      GreedyStays(sorted, existing, key, delta, i, k - 1);
    }
  }

  /** inflate_page_rank: sort the editable pages by estimated boost, walk
      down the list adding pages until the total exceeds the raw delta, and
      report the total converted back to the normalised scale. */
  method InflatePageRank(ranks: seq<real>, normalized: seq<real>, backlinks: seq<seq<nat>>,
                         outCount: seq<nat>, editable: seq<nat>, p: nat, amount: real)
    returns (normalizedBoost: real, pagesToEdit: seq<nat>)
    requires p < |ranks| && p < |normalized| && p < |backlinks|
    requires normalized[p] != 0.0 && ranks[p] != 0.0
    requires forall i :: 0 <= i < |editable| ==> editable[i] < |ranks| && editable[i] < |outCount|
    ensures var delta := TargetDelta(ranks[p], normalized[p], amount);
            var sorted := SortDesc(editable, BoostKey(ranks, outCount));
            var s := Greedy(sorted, backlinks[p], BoostKey(ranks, outCount), delta, |sorted|);
            pagesToEdit == s.pages && normalizedBoost == s.total / ranks[p] * normalized[p]
  {
    var delta := TargetDelta(ranks[p], normalized[p], amount);
    var key := BoostKey(ranks, outCount);
    var sorted := SortDesc(editable, key);
    var totalBoost;
    totalBoost, pagesToEdit := ChoosePages(sorted, backlinks[p], key, delta);
    normalizedBoost := totalBoost / ranks[p] * normalized[p];
  }

  /** The selection loop of inflate_pagerank: walk the candidates in
      order, skip those already linking to the target, and stop once the
      boost gathered exceeds the delta. */
  method ChoosePages(sorted: seq<nat>, existing: seq<nat>, key: nat -> real, delta: real)
    returns (totalBoost: real, pagesToEdit: seq<nat>)
    ensures Selection(totalBoost, pagesToEdit) == Greedy(sorted, existing, key, delta, |sorted|)
  {
    totalBoost := 0.0;
    pagesToEdit := [];
    var i := 0;
    while i < |sorted|
      invariant 0 <= i <= |sorted|
      invariant Greedy(sorted, existing, key, delta, i) == Selection(totalBoost, pagesToEdit)
    {
      if totalBoost > delta {
        GreedyStays(sorted, existing, key, delta, i, |sorted|);
        break;
      }
      var id := sorted[i];
      if id in existing {
        i := i + 1;
        continue;
      }
      totalBoost := totalBoost + key(id);
      pagesToEdit := pagesToEdit + [id];
      i := i + 1;
    }
  }

  /** Once the chosen pages' boost exceeds the delta, the predicted boost
      plus the current normalised rank exceeds the requested amount. */
  lemma PredictedBoostReachesTarget(rankP: real, normP: real, amount: real, total: real)
    requires rankP > 0.0 && normP > 0.0
    requires total > TargetDelta(rankP, normP, amount)
    ensures total / rankP * normP + normP > amount
  {
    var f := amount / normP;
    var q := total / rankP;
    assert q * rankP == total;
    assert rankP * f - rankP == rankP * (f - 1.0);
    CancelPositive(rankP, q, f - 1.0);
    assert f * normP == amount;
    MultiplyPositive(normP, q, f - 1.0);
    assert (f - 1.0) * normP == amount - normP;
  }

  lemma CancelPositive(a: real, x: real, y: real)
    requires a > 0.0 && x * a > a * y
    ensures x > y
  {
    assert a * (x - y) > 0.0;
  }

  lemma MultiplyPositive(a: real, x: real, y: real)
    requires a > 0.0 && x > y
    ensures x * a > y * a
  {
    assert (x - y) * a > 0.0;
  }

  // ---------------------------------------------------------------------
  // evaluate_scam

  /** The outlink counts after one extra outlink from every occurrence of a
      page in `pages`. */
  function AddOccurrences(outCount: seq<nat>, pages: seq<nat>): (r: seq<nat>)
    ensures |r| == |outCount|
  {
    seq(|outCount|, id requires 0 <= id < |outCount| => outCount[id] + multiset(pages)[id])
  }

  /** The edits on copies of the dicts: every page to edit is appended to the
      backlinks of the target, in order, and its outlink count grows by one
      for each time it is listed. The baseline sequences are values and stay
      as they were. */
  method DeriveEditedGraph(backlinks: seq<seq<nat>>, outCount: seq<nat>, p: nat, pagesToEdit: seq<nat>)
    returns (newBacklinks: seq<seq<nat>>, newOutCount: seq<nat>)
    requires p < |backlinks|
    requires forall i :: 0 <= i < |pagesToEdit| ==> pagesToEdit[i] < |outCount|
    ensures newBacklinks == backlinks[p := backlinks[p] + pagesToEdit]
    ensures newOutCount == AddOccurrences(outCount, pagesToEdit)
  {
    newBacklinks := backlinks;
    newOutCount := outCount;
    var i := 0;
    assert backlinks[p] + pagesToEdit[..0] == backlinks[p];
    while i < |pagesToEdit|
      invariant 0 <= i <= |pagesToEdit|
      invariant newBacklinks == backlinks[p := backlinks[p] + pagesToEdit[..i]]
      invariant newOutCount == AddOccurrences(outCount, pagesToEdit[..i])
    {
      var id := pagesToEdit[i];
      assert pagesToEdit[..i + 1] == pagesToEdit[..i] + [id];
      assert backlinks[p] + pagesToEdit[..i + 1] == (backlinks[p] + pagesToEdit[..i]) + [id];
      newBacklinks := newBacklinks[p := newBacklinks[p] + [id]];
      newOutCount := newOutCount[id := newOutCount[id] + 1];
      i := i + 1;
    }
    assert pagesToEdit[..i] == pagesToEdit;
  }

  lemma {:induction false} SumUpdate(c: seq<nat>, x: nat, v: nat)
    requires x < |c|
    ensures Sum(c[x := v]) + c[x] == Sum(c) + v
  {
    var init := c[..|c| - 1];
    if x < |c| - 1 {
      SumUpdate(init, x, v);
      assert c[x := v][..|c| - 1] == init[x := v];
    } else {
      assert c[x := v][..|c| - 1] == init;
    }
  }

  /** The edits add as many backlinks as outlinks: the flat backlink array
      and the sum of the outlink counts both grow by the number of pages
      edited. */
  lemma EditsBalance(backlinks: seq<seq<nat>>, outCount: seq<nat>, p: nat, pagesToEdit: seq<nat>)
    requires p < |backlinks|
    requires forall i :: 0 <= i < |pagesToEdit| ==> pagesToEdit[i] < |outCount|
    ensures |Flatten(backlinks[p := backlinks[p] + pagesToEdit])| == |Flatten(backlinks)| + |pagesToEdit|
    ensures Sum(AddOccurrences(outCount, pagesToEdit)) == Sum(outCount) + |pagesToEdit|
  {
    EditedBacklinksLength(backlinks, p, pagesToEdit);
    AddOccurrencesSum(outCount, pagesToEdit);
  }

  lemma EditedBacklinksLength(backlinks: seq<seq<nat>>, p: nat, pagesToEdit: seq<nat>)
    requires p < |backlinks|
    ensures |Flatten(backlinks[p := backlinks[p] + pagesToEdit])| == |Flatten(backlinks)| + |pagesToEdit|
  {
    var edited := backlinks[p := backlinks[p] + pagesToEdit];
    FlattenLength(backlinks);
    FlattenLength(edited);
    assert Counts(edited) == Counts(backlinks)[p := |backlinks[p]| + |pagesToEdit|];
    SumUpdate(Counts(backlinks), p, |backlinks[p]| + |pagesToEdit|);
  }

  lemma {:induction false} AddOccurrencesSum(outCount: seq<nat>, pagesToEdit: seq<nat>)
    requires forall i :: 0 <= i < |pagesToEdit| ==> pagesToEdit[i] < |outCount|
    ensures Sum(AddOccurrences(outCount, pagesToEdit)) == Sum(outCount) + |pagesToEdit|
  {
    if pagesToEdit == [] {
      assert AddOccurrences(outCount, pagesToEdit) == outCount;
    } else {
      var init := pagesToEdit[..|pagesToEdit| - 1];
      var last := pagesToEdit[|pagesToEdit| - 1];
      AddOccurrencesSum(outCount, init);
      AddOccurrencesAppend(outCount, init, last);
      var before := AddOccurrences(outCount, init);
      assert init + [last] == pagesToEdit;
      SumUpdate(before, last, before[last] + 1);
    }
  }

  lemma AddOccurrencesAppend(outCount: seq<nat>, init: seq<nat>, last: nat)
    requires last < |outCount|
    ensures AddOccurrences(outCount, init + [last])
         == AddOccurrences(outCount, init)[last := AddOccurrences(outCount, init)[last] + 1]
  {
    var bag: multiset<nat> := multiset(init + [last]);
    assert bag == multiset(init) + multiset{last};
  }

  /** evaluate_scam's result from the ranks the edited graph converges to:
      the target's rank over the smallest rank, which is the target's
      normalised rank and, with positive ranks, at least 1. */
  function EvaluatedRank(newRanks: seq<real>, p: nat): (r: real)
    requires p < |newRanks| && Min(newRanks) != 0.0
    ensures r == Normalized(newRanks)[p]
    ensures Min(newRanks) > 0.0 ==> r >= 1.0
  {
    if Min(newRanks) > 0.0 then
      ScaledAt(newRanks, Min(newRanks), p);
      newRanks[p] / Min(newRanks)
    else
      newRanks[p] / Min(newRanks)
  }
}
