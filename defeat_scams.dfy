/** data/defeat_scams.py, get_probability_matrix up to the list of weight
    triples: a self-loop is appended to the outlink list of every page of the
    rank dict, in the caller's own dict, and each (from, to) link then gets
    the weight 1 / len(outlinks of from). */
module DefeatScams {
  import opened Csr
  import opened DataUtils

  /** The outlinks of `id` after the self-loops of the pages 0 .. n-1 have
      been appended to the lists of `m` (a defaultdict(list), so a page with
      no list gets one). */
  function SelfLooped(m: map<nat, seq<nat>>, n: nat): (r: map<nat, seq<nat>>)
    ensures forall id: nat :: id in r <==> id in m || id < n
    ensures forall id: nat :: id < n ==> r[id] == Get(m, id) + [id]
    ensures forall id: nat :: id in m && id >= n ==> r[id] == m[id]
  {
    if n == 0 then m
    else
      var prev := SelfLooped(m, n - 1);
      prev[n - 1 := Get(prev, n - 1) + [n - 1]]
  }

  /** The (from, to, weight) triples of one outlink list. */
  function EntryTriples(from: nat, tos: seq<nat>): (ts: seq<(nat, nat, real)>)
    ensures |ts| == |tos|
  {
    seq(|tos|, k requires 0 <= k < |tos| => (from, tos[k], 1.0 / |tos| as real))
  }

  /** The triples of all lists, in the order the dict yields them. */
  function Triples(entries: seq<(nat, seq<nat>)>): seq<(nat, nat, real)>
  {
    if entries == [] then []
    else
      var last := entries[|entries| - 1];
      Triples(entries[..|entries| - 1]) + EntryTriples(last.0, last.1)
  }

  /** The (key, list) pairs of `m` in the order `order` gives the keys. */
  function Items(m: map<nat, seq<nat>>, order: seq<nat>): (items: seq<(nat, seq<nat>)>)
    requires forall i :: 0 <= i < |order| ==> order[i] in m
    ensures |items| == |order|
  {
    seq(|order|, i requires 0 <= i < |order| => (order[i], m[order[i]]))
  }

  /** The sum of the weights of the triples that leave `from`. */
  function WeightFrom(ts: seq<(nat, nat, real)>, from: nat): real
  {
    if ts == [] then 0.0
    else WeightFrom(ts[..|ts| - 1], from) + (if ts[|ts| - 1].0 == from then ts[|ts| - 1].2 else 0.0)
  }

  /** The dict that get_probability_matrix mutates. */
  class OutlinkTable {
    var lists: map<nat, seq<nat>>

    constructor(outlinks: map<nat, seq<nat>>)
      ensures lists == outlinks
    {
      lists := outlinks;
    }

    /** The self-loop loop: `outlinks[id].append(id)` for every id in
        range(n), changing the lists the caller passed in. */
    method AddSelfLoops(n: nat)
      modifies this
      ensures lists == SelfLooped(old(lists), n)
    {
      ghost var m0 := lists;
      var id := 0;
      while id < n
        invariant 0 <= id <= n
        invariant lists == SelfLooped(m0, id)
      {
        SelfLoopedStep(m0, id);
        lists := lists[id := Get(lists, id) + [id]];
        id := id + 1;
      }
    }

    /** get_probability_matrix up to the triple list: the self-loops, then
        one triple per entry of every list, the keys taken in `order`, the
        iteration order of the dict, which names every key once. */
    method ProbabilityTriples(n: nat, order: seq<nat>) returns (triples: seq<(nat, nat, real)>)
      requires forall i :: 0 <= i < |order| ==> order[i] in lists || order[i] < n
      requires forall k :: k in lists || k < n ==> k in order
      requires forall i, j :: 0 <= i < j < |order| ==> order[i] != order[j]
      modifies this
      ensures lists == SelfLooped(old(lists), n)
      ensures triples == Triples(Items(lists, order))
      ensures forall id :: 0 <= id < n ==> WeightFrom(triples, id) == 1.0
    {
      AddSelfLoops(n);
      triples := [];
      var i := 0;
      while i < |order|
        invariant 0 <= i <= |order|
        invariant lists == SelfLooped(old(lists), n)
        invariant triples == Triples(Items(lists, order)[..i])
      {
        var from := order[i];
        var tos := lists[from];
        assert Items(lists, order)[..i + 1] == Items(lists, order)[..i] + [(from, tos)];
        assert Items(lists, order)[..i + 1][..i] == Items(lists, order)[..i];
        var entry := WeightedLinks(from, tos);
        triples := triples + entry;
        i := i + 1;
      }
      assert Items(lists, order)[..i] == Items(lists, order);
      EveryPageSumsToOne(old(lists), n, order);
    }
  }

  /** The inner loop: one triple per entry of the list of `from`. */
  method WeightedLinks(from: nat, tos: seq<nat>) returns (ts: seq<(nat, nat, real)>)
    ensures ts == EntryTriples(from, tos)
  {
    ts := [];
    var k := 0;
    while k < |tos|
      invariant 0 <= k <= |tos|
      invariant ts == EntryTriples(from, tos)[..k]
    {
      ts := ts + [(from, tos[k], 1.0 / |tos| as real)];
      k := k + 1;
    }
  }

  lemma SelfLoopedStep(m: map<nat, seq<nat>>, id: nat)
    ensures SelfLooped(m, id + 1) == SelfLooped(m, id)[id := Get(SelfLooped(m, id), id) + [id]]
  {
  }

  // ---------------------------------------------------------------------
  // Facts about the triples

  /** One triple per entry of each list. */
  lemma {:induction false} TriplesCount(entries: seq<(nat, seq<nat>)>)
    ensures |Triples(entries)| == |Flatten(Lists(entries))|
  {
    if entries != [] {
      var init := entries[..|entries| - 1];
      var last := entries[|entries| - 1];
      TriplesCount(init);
      assert Lists(entries) == Lists(init) + [last.1];
      FlattenAppend(Lists(init), last.1);
    }
  }

  lemma {:induction false} WeightFromConcat(a: seq<(nat, nat, real)>, b: seq<(nat, nat, real)>, from: nat)
    ensures WeightFrom(a + b, from) == WeightFrom(a, from) + WeightFrom(b, from)
    decreases |b|
  {
    if b == [] {
      assert a + b == a;
    } else {
      var init := b[..|b| - 1];
      assert (a + b)[..|a + b| - 1] == a + init;
      WeightFromConcat(a, init, from);
    }
  }

  lemma {:induction false} EntryWeightPrefix(from: nat, tos: seq<nat>, k: nat, other: nat)
    requires 0 < k <= |tos|
    ensures WeightFrom(EntryTriples(from, tos)[..k], other)
         == if other == from then k as real * (1.0 / |tos| as real) else 0.0
  {
    var ts := EntryTriples(from, tos);
    assert ts[..k][..k - 1] == ts[..k - 1];
    if k > 1 {
      EntryWeightPrefix(from, tos, k - 1, other);
    } else {
      assert ts[..k - 1] == [];
    }
  }

  /** The weights of the triples of one non-empty list add up to 1, and
      none of them leaves another page. */
  lemma EntryWeights(from: nat, tos: seq<nat>, other: nat)
    requires |tos| > 0
    ensures WeightFrom(EntryTriples(from, tos), other) == if other == from then 1.0 else 0.0
  {
    var ts := EntryTriples(from, tos);
    EntryWeightPrefix(from, tos, |tos|, other);
    assert ts[..|tos|] == ts;
    var n := |tos| as real;
    TimesInverse(n, 1.0 / n);
  }

  lemma TimesInverse(n: real, q: real)
    requires n > 0.0 && q == 1.0 / n
    ensures n * q == 1.0
  {
  }

  /** With distinct keys, all the weight leaving the page of entry `i` adds
      up to 1 when its list is not empty. */
  lemma {:induction false} WeightsSumToOne(entries: seq<(nat, seq<nat>)>, i: nat)
    requires i < |entries| && |entries[i].1| > 0
    requires forall j, k :: 0 <= j < k < |entries| ==> entries[j].0 != entries[k].0
    ensures WeightFrom(Triples(entries), entries[i].0) == 1.0
  {
    var init := entries[..|entries| - 1];
    var last := entries[|entries| - 1];
    WeightFromConcat(Triples(init), EntryTriples(last.0, last.1), entries[i].0);
    if i < |entries| - 1 {
      WeightsSumToOne(init, i);
      if |last.1| > 0 {
        EntryWeights(last.0, last.1, entries[i].0);
      }
    } else {
      NoWeightFrom(init, last.0);
      EntryWeights(last.0, last.1, last.0);
    }
  }

  lemma {:induction false} NoWeightFrom(entries: seq<(nat, seq<nat>)>, from: nat)
    requires forall j :: 0 <= j < |entries| ==> entries[j].0 != from
    ensures WeightFrom(Triples(entries), from) == 0.0
  {
    if entries != [] {
      var init := entries[..|entries| - 1];
      var last := entries[|entries| - 1];
      NoWeightFrom(init, from);
      WeightFromConcat(Triples(init), EntryTriples(last.0, last.1), from);
      if |last.1| > 0 {
        EntryWeights(last.0, last.1, from);
      }
    }
  }

  /** Once the self-loops are in, every page 0 .. n-1 that the dict yields
      sends out exactly a total weight of 1. */
  lemma SelfLoopedPagesSumToOne(m: map<nat, seq<nat>>, n: nat, order: seq<nat>, i: nat)
    requires forall j :: 0 <= j < |order| ==> order[j] in SelfLooped(m, n)
    requires forall j, k :: 0 <= j < k < |order| ==> order[j] != order[k]
    requires i < |order| && order[i] < n
    ensures WeightFrom(Triples(Items(SelfLooped(m, n), order)), order[i]) == 1.0
  {
    var items := Items(SelfLooped(m, n), order);
    assert items[i].1 == Get(m, order[i]) + [order[i]];
    WeightsSumToOne(items, i);
  }
  /** Every page below n has a self-loop row, so its outgoing weights sum to one. */
  lemma EveryPageSumsToOne(m: map<nat, seq<nat>>, n: nat, order: seq<nat>)
    requires forall j :: 0 <= j < |order| ==> order[j] in m || order[j] < n
    requires forall k :: k in m || k < n ==> k in order
    requires forall j, k :: 0 <= j < k < |order| ==> order[j] != order[k]
    ensures forall id :: 0 <= id < n ==> WeightFrom(Triples(Items(SelfLooped(m, n), order)), id) == 1.0
  {
    forall id | 0 <= id < n
      ensures WeightFrom(Triples(Items(SelfLooped(m, n), order)), id) == 1.0
    {
      assert id in order;
      var i :| 0 <= i < |order| && order[i] == id;
      SelfLoopedPagesSumToOne(m, n, order, i);
    }
  }

}
