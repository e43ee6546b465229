/** data/data_utils.py on arrays and dicts already in memory: the decode loop
    of get_backlinks, get_outlinks and normalized_pageranks. */
module DataUtils {
  import opened Csr

  // ---------------------------------------------------------------------
  // get_backlinks

  /** The decode loop: one key per id of the count array, mapped to the
      slice of the flat array that belongs to it. */
  method GetBacklinks(links: seq<nat>, count: seq<nat>, cumsum: seq<nat>) returns (output: map<nat, seq<nat>>)
    requires |count| <= |cumsum| + 1
    ensures forall i: nat :: i in output <==> i < |count|
    ensures forall i :: 0 <= i < |count| ==> output[i] == Decode(Layout(links, count, cumsum))[i]
  {
    output := map[];
    var i := 0;
    while i < |count|
      invariant 0 <= i <= |count|
      invariant forall k: nat :: k in output <==> k < i
      invariant forall k :: 0 <= k < i ==> output[k] == DecodeAt(Layout(links, count, cumsum), k)
    {
      var start := if i == 0 then 0 else cumsum[i - 1];
      var end := start + count[i];
      output := output[i := PySlice(links, start, end)];
      i := i + 1;
    }
  }

  // ---------------------------------------------------------------------
  // get_outlinks

  /** The list of `b` in a defaultdict(list): empty when `b` is no key. */
  function Get(m: map<nat, seq<nat>>, b: nat): seq<nat>
  {
    if b in m then m[b] else []
  }

  /** `output[b].append(id)` for every b of `bs`, in order. */
  function AppendAll(m: map<nat, seq<nat>>, bs: seq<nat>, id: nat): map<nat, seq<nat>>
  {
    if bs == [] then m
    else
      var m' := AppendAll(m, bs[..|bs| - 1], id);
      var b := bs[|bs| - 1];
      m'[b := Get(m', b) + [id]]
  }

  /** The dict get_outlinks builds from the (id, backlinks) pairs, in the
      order the backlinks dict yields them. */
  function Inverted(entries: seq<(nat, seq<nat>)>): map<nat, seq<nat>>
  {
    if entries == [] then map[]
    else
      var last := entries[|entries| - 1];
      AppendAll(Inverted(entries[..|entries| - 1]), last.1, last.0)
  }

  /** The backlink lists of the entries, in order. */
  function Lists(entries: seq<(nat, seq<nat>)>): (ls: seq<seq<nat>>)
    ensures |ls| == |entries|
  {
    seq(|entries|, i requires 0 <= i < |entries| => entries[i].1)
  }

  /** How often `b` occurs in the backlinks listed for `id`. */
  function Occurrences(entries: seq<(nat, seq<nat>)>, b: nat, id: nat): nat
  {
    if entries == [] then 0
    else
      var last := entries[|entries| - 1];
      Occurrences(entries[..|entries| - 1], b, id) + (if last.0 == id then multiset(last.1)[b] else 0)
  }

  /** `k` copies of `id`. */
  function Repeat(k: nat, id: nat): (r: seq<nat>)
    ensures |r| == k
  {
    if k == 0 then [] else Repeat(k - 1, id) + [id]
  }

  lemma {:induction false} RepeatCount(k: nat, id: nat, x: nat)
    ensures multiset(Repeat(k, id))[x] == if x == id then k else 0
  {
    if k > 0 {
      RepeatCount(k - 1, id, x);
    }
  }

  method GetOutlinks(entries: seq<(nat, seq<nat>)>) returns (output: map<nat, seq<nat>>)
    ensures output == Inverted(entries)
  {
    output := map[];
    var i := 0;
    while i < |entries|
      invariant 0 <= i <= |entries|
      invariant output == Inverted(entries[..i])
    {
      var (id, backlinks) := entries[i];
      assert entries[..i + 1][..i] == entries[..i];
      var j := 0;
      while j < |backlinks|
        invariant 0 <= j <= |backlinks|
        invariant output == AppendAll(Inverted(entries[..i]), backlinks[..j], id)
      {
        var b := backlinks[j];
        assert backlinks[..j + 1][..j] == backlinks[..j];
        output := output[b := Get(output, b) + [id]];
        j := j + 1;
      }
      assert backlinks[..j] == backlinks;
      i := i + 1;
    }
    assert entries[..i] == entries;
  }

  /** Appending `id` for each element of `bs` creates only keys of `bs`. */
  lemma {:induction false} AppendAllKeys(m: map<nat, seq<nat>>, bs: seq<nat>, id: nat, b: nat)
    ensures b in AppendAll(m, bs, id) <==> b in m || b in bs
  {
    if bs != [] {
      var init := bs[..|bs| - 1];
      AppendAllKeys(m, init, id, b);
      assert bs == init + [bs[|bs| - 1]];
    }
  }

  /** Appending `id` for each element of `bs` adds `id` to the list of `b`
      once per occurrence of `b` in `bs`. */
  lemma {:induction false} AppendAllGet(m: map<nat, seq<nat>>, bs: seq<nat>, id: nat, b: nat)
    ensures Get(AppendAll(m, bs, id), b) == Get(m, b) + Repeat(multiset(bs)[b], id)
  {
    if bs != [] {
      var init := bs[..|bs| - 1];
      var last := bs[|bs| - 1];
      assert init + [last] == bs;
      AppendAllGet(m, init, id, b);
      SnocCount(init, last, b);
      var initBag: multiset<nat> := multiset(init);
      AppendOneGet(AppendAll(m, init, id), last, id, b, Get(m, b), initBag[b]);
    }
  }

  /** One more `append(id)` to the list of `last` adds one copy of `id` to
      the list of `b` when `b` is `last`, and nothing otherwise. */
  lemma AppendOneGet(m: map<nat, seq<nat>>, last: nat, id: nat, b: nat, base: seq<nat>, k: nat)
    requires Get(m, b) == base + Repeat(k, id)
    ensures Get(m[last := Get(m, last) + [id]], b) == base + Repeat(k + if last == b then 1 else 0, id)
  {
    if last == b {
      assert Repeat(k + 1, id) == Repeat(k, id) + [id];
      assert (base + Repeat(k, id)) + [id] == base + (Repeat(k, id) + [id]);
    }
  }

  lemma SnocCount(s: seq<nat>, x: nat, b: nat)
    ensures multiset(s + [x])[b] == multiset(s)[b] + if x == b then 1 else 0
  {
    assert multiset(s + [x]) == multiset(s) + multiset{x};
  }

  /** get_outlinks has a key exactly for the pages that occur as some
      backlink; the list of `b` is as long as the number of times `b` occurs
      as a backlink, and it names `id` once for every occurrence of `b` among
      the backlinks of `id`. */
  lemma InvertedExact(entries: seq<(nat, seq<nat>)>, b: nat, id: nat)
    ensures b in Inverted(entries) <==> b in Flatten(Lists(entries))
    ensures |Get(Inverted(entries), b)| == multiset(Flatten(Lists(entries)))[b]
    ensures multiset(Get(Inverted(entries), b))[id] == Occurrences(entries, b, id)
  {
    InvertedKeys(entries, b);
    InvertedLength(entries, b);
    InvertedOccurrences(entries, b, id);
  }

  lemma {:induction false} InvertedKeys(entries: seq<(nat, seq<nat>)>, b: nat)
    ensures b in Inverted(entries) <==> b in Flatten(Lists(entries))
  {
    if entries != [] {
      var init := entries[..|entries| - 1];
      var last := entries[|entries| - 1];
      InvertedKeys(init, b);
      AppendAllKeys(Inverted(init), last.1, last.0, b);
      assert Lists(entries) == Lists(init) + [last.1];
      FlattenAppend(Lists(init), last.1);
    }
  }

  lemma {:induction false} InvertedLength(entries: seq<(nat, seq<nat>)>, b: nat)
    ensures |Get(Inverted(entries), b)| == multiset(Flatten(Lists(entries)))[b]
  {
    if entries != [] {
      var init := entries[..|entries| - 1];
      var last := entries[|entries| - 1];
      InvertedLength(init, b);
      AppendAllGet(Inverted(init), last.1, last.0, b);
      assert Lists(entries) == Lists(init) + [last.1];
      FlattenAppendCount(Lists(init), last.1, b);
    }
  }

  lemma FlattenAppendCount(lists: seq<seq<nat>>, s: seq<nat>, b: nat)
    ensures multiset(Flatten(lists + [s]))[b] == multiset(Flatten(lists))[b] + multiset(s)[b]
  {
    FlattenAppend(lists, s);
    var flat: multiset<nat> := multiset(Flatten(lists) + s);
    assert flat == multiset(Flatten(lists)) + multiset(s);
  }

  lemma {:induction false} InvertedOccurrences(entries: seq<(nat, seq<nat>)>, b: nat, id: nat)
    ensures multiset(Get(Inverted(entries), b))[id] == Occurrences(entries, b, id)
  {
    if entries != [] {
      var init := entries[..|entries| - 1];
      var last := entries[|entries| - 1];
      InvertedOccurrences(init, b, id);
      AppendAllGet(Inverted(init), last.1, last.0, b);
      var lastBag: multiset<nat> := multiset(last.1);
      RepeatCount(lastBag[b], last.0, id);
    }
  }

  /** When the entries have distinct ids, as a dict's items do, `id` occurs in
      the outlinks of `b` exactly as often as `b` occurs in the backlinks of
      `id`. */
  lemma OutlinksInvertBacklinks(entries: seq<(nat, seq<nat>)>, i: nat, b: nat)
    requires i < |entries|
    requires forall j, k :: 0 <= j < k < |entries| ==> entries[j].0 != entries[k].0
    ensures multiset(Get(Inverted(entries), b))[entries[i].0] == multiset(entries[i].1)[b]
  {
    InvertedExact(entries, b, entries[i].0);
    OccurrencesOfDistinct(entries, i, b);
  }

  lemma {:induction false} OccurrencesOfDistinct(entries: seq<(nat, seq<nat>)>, i: nat, b: nat)
    requires i < |entries|
    requires forall j, k :: 0 <= j < k < |entries| ==> entries[j].0 != entries[k].0
    ensures Occurrences(entries, b, entries[i].0) == multiset(entries[i].1)[b]
  {
    var init := entries[..|entries| - 1];
    if i < |entries| - 1 {
      OccurrencesOfDistinct(init, i, b);
    } else {
      OccurrencesAbsent(init, b, entries[i].0);
    }
  }

  lemma {:induction false} OccurrencesAbsent(entries: seq<(nat, seq<nat>)>, b: nat, id: nat)
    requires forall j :: 0 <= j < |entries| ==> entries[j].0 != id
    ensures Occurrences(entries, b, id) == 0
  {
    if entries != [] {
      OccurrencesAbsent(entries[..|entries| - 1], b, id);
    }
  }

  // ---------------------------------------------------------------------
  // normalized_pageranks

  /** The smallest rank. */
  function Min(s: seq<real>): (m: real)
    requires |s| > 0
    ensures forall i :: 0 <= i < |s| ==> m <= s[i]
    ensures exists i :: 0 <= i < |s| && s[i] == m
  {
    if |s| == 1 then s[0]
    else
      var m := Min(s[..|s| - 1]);
      assert forall i :: 0 <= i < |s| - 1 ==> s[..|s| - 1][i] == s[i];
      if s[|s| - 1] < m then s[|s| - 1] else m
  }

  /** Every rank divided by `m`. */
  function Scaled(s: seq<real>, m: real): (r: seq<real>)
    requires m != 0.0
    ensures |r| == |s|
  {
    seq(|s|, i requires 0 <= i < |s| => s[i] / m)
  }

  /** normalized_pageranks: every rank divided by the smallest one. */
  function Normalized(s: seq<real>): (r: seq<real>)
    requires |s| > 0 && Min(s) != 0.0
    ensures |r| == |s|
  {
    Scaled(s, Min(s))
  }

  /** Dividing by a positive `m` no larger than the rank gives a value that
      times `m` is the rank, at least 1, and exactly 1 for the rank `m`. */
  lemma ScaledAt(s: seq<real>, m: real, i: nat)
    requires i < |s| && 0.0 < m <= s[i]
    ensures Scaled(s, m)[i] * m == s[i] && Scaled(s, m)[i] >= 1.0
    ensures s[i] == m ==> Scaled(s, m)[i] == 1.0
  {
    DivideByMin(s[i], m, Scaled(s, m)[i]);
  }

  /** With positive ranks every normalised rank is at least 1, and the
      smallest rank becomes exactly 1. */
  lemma NormalizedAtLeastOne(s: seq<real>)
    requires |s| > 0 && Min(s) > 0.0
    ensures forall i :: 0 <= i < |s| ==> Normalized(s)[i] >= 1.0
    ensures exists i :: 0 <= i < |s| && Normalized(s)[i] == 1.0
  {
    var m := Min(s);
    forall i | 0 <= i < |s|
      ensures Scaled(s, m)[i] >= 1.0
    {
      ScaledAt(s, m, i);
    }
    var k :| 0 <= k < |s| && s[k] == m;
    ScaledAt(s, m, k);
    assert Normalized(s)[k] == 1.0;
  }

  lemma DivideByMin(x: real, m: real, q: real)
    requires 0.0 < m <= x && q == x / m
    ensures q * m == x && q >= 1.0
    ensures x == m ==> q == 1.0
  {
  }
}
