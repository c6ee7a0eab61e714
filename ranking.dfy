/**
 * The duration ranker, `sortModuleDurations` (breqd.js:70-92): the entries
 * of the name-to-duration object become `{moduleName, duration}` records,
 * which are then sorted in place by descending duration.
 */
module Ranking {
  import opened Wrappers
  import opened JsValues

  /** One `{ moduleName, duration }` record. */
  datatype ModuleDuration = ModuleDuration(moduleName: string, duration: real)

  /** Every earlier record lasts at least as long as every later one. */
  ghost predicate SortedDescending(s: seq<ModuleDuration>)
  {
    forall i, j :: 0 <= i < j < |s| ==> s[i].duration >= s[j].duration
  }

  /** The records of the entries of `moduleDurations` whose key is in `keys`
      and whose value is a number. */
  ghost function Entries(moduleDurations: map<string, JsValue>, keys: set<string>): (entries: set<ModuleDuration>)
  {
    set k | k in keys && k in moduleDurations && moduleDurations[k].Num? ::
      ModuleDuration(k, moduleDurations[k].n)
  }

  /** A ranking of `moduleDurations`: exactly one record per entry, in
      descending order of duration. */
  ghost predicate IsRanking(moduleDurations: map<string, JsValue>, ranked: seq<ModuleDuration>)
  {
    SortedDescending(ranked) &&
    multiset(ranked) == multiset(Entries(moduleDurations, moduleDurations.Keys))
  }

  lemma EntriesAdd(moduleDurations: map<string, JsValue>, keys: set<string>, k: string)
    requires k in moduleDurations && k !in keys && moduleDurations[k].Num?
    ensures ModuleDuration(k, moduleDurations[k].n) !in Entries(moduleDurations, keys)
    ensures Entries(moduleDurations, keys + {k})
         == Entries(moduleDurations, keys) + {ModuleDuration(k, moduleDurations[k].n)}
  {
  }

  /** Distinct keys give distinct records, so there are as many records as keys. */
  lemma {:induction false} EntriesCount(moduleDurations: map<string, JsValue>, keys: set<string>)
    requires keys <= moduleDurations.Keys
    requires forall k :: k in keys ==> moduleDurations[k].Num?
    ensures |Entries(moduleDurations, keys)| == |keys|
    decreases keys
  {
    if keys != {} {
      var k :| k in keys;
      EntriesCount(moduleDurations, keys - {k});
      EntriesAdd(moduleDurations, keys - {k}, k);
      assert keys - {k} + {k} == keys;
    }
  }

  /** The records of a ranking are exactly the entries of the map: each
      record's name is a key whose value is the record's duration, and each
      key has a record. */
  lemma RankingMembers(moduleDurations: map<string, JsValue>, ranked: seq<ModuleDuration>)
    requires IsRanking(moduleDurations, ranked)
    ensures forall i :: 0 <= i < |ranked| ==>
      ranked[i].moduleName in moduleDurations &&
      moduleDurations[ranked[i].moduleName] == Num(ranked[i].duration)
    ensures forall k :: k in moduleDurations && moduleDurations[k].Num? ==>
      ModuleDuration(k, moduleDurations[k].n) in ranked
  {
    var entries := Entries(moduleDurations, moduleDurations.Keys);
    forall i | 0 <= i < |ranked|
      ensures ranked[i].moduleName in moduleDurations
      ensures moduleDurations[ranked[i].moduleName] == Num(ranked[i].duration)
    {
      assert ranked[i] in multiset(ranked);
      assert ranked[i] in entries;
    }
    forall k | k in moduleDurations && moduleDurations[k].Num?
      ensures ModuleDuration(k, moduleDurations[k].n) in ranked
    {
      assert ModuleDuration(k, moduleDurations[k].n) in entries;
      assert ModuleDuration(k, moduleDurations[k].n) in multiset(ranked);
    }
  }

  /** A ranking of a mapping whose values are all numbers has one record per key. */
  lemma RankingLength(moduleDurations: map<string, JsValue>, ranked: seq<ModuleDuration>)
    requires IsRanking(moduleDurations, ranked)
    requires forall k :: k in moduleDurations ==> moduleDurations[k].Num?
    ensures |ranked| == |moduleDurations|
  {
    EntriesCount(moduleDurations, moduleDurations.Keys);
    assert |ranked| == |multiset(ranked)|;
  }

  /** Exchanges two elements of `a`. */
  method Swap(a: array<ModuleDuration>, i: nat, j: nat)
    requires i < a.Length && j < a.Length
    modifies a
    ensures a[..] == old(a[..])[i := old(a[j])][j := old(a[i])]
    ensures multiset(a[..]) == old(multiset(a[..]))
  {
    a[i], a[j] := a[j], a[i];
  }

  /** Sorts `a` in place by descending duration (an insertion sort; the
      source relies on the runtime's comparison sort with the comparator
      `b.duration - a.duration`). */
  method SortDescending(a: array<ModuleDuration>)
    modifies a
    ensures SortedDescending(a[..])
    ensures multiset(a[..]) == old(multiset(a[..]))
  {
    for i := 0 to a.Length
      invariant forall p, q :: 0 <= p < q < i ==> a[p].duration >= a[q].duration
      invariant multiset(a[..]) == old(multiset(a[..]))
    {
      InsertDescending(a, i);
    }
  }

  /** Moves `a[i]` left into the sorted prefix `a[..i]`, leaving the rest of
      the array as it was. */
  method InsertDescending(a: array<ModuleDuration>, i: nat)
    requires i < a.Length
    requires forall p, q :: 0 <= p < q < i ==> a[p].duration >= a[q].duration
    modifies a
    ensures forall p, q :: 0 <= p < q <= i ==> a[p].duration >= a[q].duration
    ensures a[i + 1..] == old(a[i + 1..])
    ensures multiset(a[..i + 1]) == old(multiset(a[..i + 1]))
    ensures multiset(a[..]) == old(multiset(a[..]))
  {
    var j := i;
    while j > 0 && a[j - 1].duration < a[j].duration
      invariant 0 <= j <= i
      invariant SortedApartFrom(a[..], i + 1, j) && Leads(a[..], i + 1, j)
      invariant a[i + 1..] == old(a[i + 1..])
      invariant multiset(a[..]) == old(multiset(a[..]))
    {
      SwapDown(a, j, i + 1);
      j := j - 1;
    }
    InsertDone(a[..], i + 1, j);
    PrefixMultiset(old(a[..]), a[..], i + 1);
  }

  /** Exchanges the record at `j` with its shorter predecessor. */
  method SwapDown(a: array<ModuleDuration>, j: nat, n: nat)
    requires 0 < j < n <= a.Length
    requires SortedApartFrom(a[..], n, j) && Leads(a[..], n, j)
    requires a[j - 1].duration < a[j].duration
    modifies a
    ensures SortedApartFrom(a[..], n, j - 1) && Leads(a[..], n, j - 1)
    ensures a[n..] == old(a[n..])
    ensures multiset(a[..]) == old(multiset(a[..]))
  {
    ghost var before := a[..];
    Swap(a, j - 1, j);
    InsertStep(before, a[..], j, n);
  }

  /** The first `n` records are in descending order once the one at `j` is
      set aside. */
  ghost predicate SortedApartFrom(s: seq<ModuleDuration>, n: nat, j: nat)
    requires n <= |s|
  {
    forall p, q :: 0 <= p < q < n && p != j && q != j ==> s[p].duration >= s[q].duration
  }

  /** The record at `j` lasts at least as long as every later one of the
      first `n`. */
  ghost predicate Leads(s: seq<ModuleDuration>, n: nat, j: nat)
    requires j < n <= |s|
  {
    forall q :: j < q < n ==> s[j].duration >= s[q].duration
  }

  /** One step of the insertion: exchanging the record at `j` with a shorter
      predecessor moves the gap one place left and keeps everything after
      the first `n` records. */
  lemma InsertStep(before: seq<ModuleDuration>, after: seq<ModuleDuration>, j: nat, n: nat)
    requires 0 < j < n <= |before|
    requires SortedApartFrom(before, n, j) && Leads(before, n, j)
    requires before[j - 1].duration < before[j].duration
    requires after == before[j - 1 := before[j]][j := before[j - 1]]
    ensures SortedApartFrom(after, n, j - 1) && Leads(after, n, j - 1)
    ensures after[n..] == before[n..]
  {
  }

  /** When the record at `j` is no longer than its predecessor, the first
      `n` records are in descending order. */
  lemma InsertDone(s: seq<ModuleDuration>, n: nat, j: nat)
    requires j < n <= |s|
    requires SortedApartFrom(s, n, j) && Leads(s, n, j)
    requires j == 0 || s[j - 1].duration >= s[j].duration
    ensures forall p, q :: 0 <= p < q < n ==> s[p].duration >= s[q].duration
  {
  }

  /** Sequences with the same multiset which agree after their first `n`
      elements have the same multiset of those first `n`. */
  lemma PrefixMultiset(s: seq<ModuleDuration>, t: seq<ModuleDuration>, n: nat)
    requires n <= |s| == |t|
    requires s[n..] == t[n..] && multiset(s) == multiset(t)
    ensures multiset(s[..n]) == multiset(t[..n])
  {
    assert s == s[..n] + s[n..];
    assert t == t[..n] + t[n..];
    assert multiset(s) == multiset(s[..n]) + multiset(s[n..]);
    assert multiset(t) == multiset(t[..n]) + multiset(t[n..]);
    assert multiset(s[..n]) == multiset(s) - multiset(s[n..]);
    assert multiset(t[..n]) == multiset(t) - multiset(t[n..]);
  }

  /** `sortModuleDurations`: fails with a `TypeError` (and no partial result)
      when some value is not a number; otherwise returns one record per entry
      of the map, sorted by descending duration. */
  method SortModuleDurations(moduleDurations: map<string, JsValue>)
    returns (r: Result<seq<ModuleDuration>, TypeError>)
    ensures r.Failure? <==> exists k :: k in moduleDurations && !moduleDurations[k].Num?
    ensures r.Failure? ==> exists k :: (k in moduleDurations && !moduleDurations[k].Num? &&
      r.error == ValueNotNumber(moduleDurations[k]))
    ensures r.Success? ==> IsRanking(moduleDurations, r.value)
    ensures r.Success? ==> |r.value| == |moduleDurations|
  {
    var sortedModuleDurations: seq<ModuleDuration> := [];
    var remaining := moduleDurations.Keys;
    while remaining != {}
      invariant remaining <= moduleDurations.Keys
      invariant forall k :: k in moduleDurations.Keys - remaining ==> moduleDurations[k].Num?
      invariant multiset(sortedModuleDurations)
             == multiset(Entries(moduleDurations, moduleDurations.Keys - remaining))
      decreases remaining
    {
      var moduleName :| moduleName in remaining;
      var duration := moduleDurations[moduleName];
      if !duration.Num? {
        return Failure(ValueNotNumber(duration));
      }
      ghost var done := moduleDurations.Keys - remaining;
      EntriesAdd(moduleDurations, done, moduleName);
      assert moduleDurations.Keys - (remaining - {moduleName}) == done + {moduleName};
      sortedModuleDurations := sortedModuleDurations + [ModuleDuration(moduleName, duration.n)];
      remaining := remaining - {moduleName};
    }
    assert moduleDurations.Keys - remaining == moduleDurations.Keys;

    var a := new ModuleDuration[|sortedModuleDurations|](i requires 0 <= i < |sortedModuleDurations| =>
      sortedModuleDurations[i]);
    assert a[..] == sortedModuleDurations;
    SortDescending(a);
    RankingLength(moduleDurations, a[..]);
    return Success(a[..]);
  }
}
