/**
 * The three stages chained as the command-line tool chains them: the
 * collected name-to-duration mapping is ranked, and the ranking is converted
 * into trace events.
 */
module Pipeline {
  import opened JsValues
  import opened Ranking
  import opened TraceEvents

  /** The collected mapping as the JavaScript object the ranker receives. */
  function AsJsObject(durations: map<string, real>): (jsObject: map<string, JsValue>)
    ensures jsObject.Keys == durations.Keys
    ensures forall k :: k in jsObject ==> jsObject[k] == Num(durations[k])
  {
    map k | k in durations :: Num(durations[k])
  }

  /** A value occurring at two positions occurs at least twice in the multiset. */
  lemma TwiceInMultiset<T>(s: seq<T>, i: nat, j: nat)
    requires i < j < |s| && s[i] == s[j]
    ensures multiset(s)[s[i]] >= 2
  {
    assert s == s[..j] + [s[j]] + s[j + 1..];
    assert s[i] in multiset(s[..j]) by {
      assert s[..j][i] == s[i];
    }
    assert multiset(s) == multiset(s[..j]) + multiset{s[j]} + multiset(s[j + 1..]);
  }

  /** Ranked records of a mapping have pairwise distinct names. */
  lemma RankingNamesDistinct(moduleDurations: map<string, JsValue>, ranked: seq<ModuleDuration>)
    requires IsRanking(moduleDurations, ranked)
    ensures forall i, j :: 0 <= i < j < |ranked| ==> ranked[i].moduleName != ranked[j].moduleName
  {
    RankingMembers(moduleDurations, ranked);
    forall i, j | 0 <= i < j < |ranked|
      ensures ranked[i].moduleName != ranked[j].moduleName
    {
      var entries := Entries(moduleDurations, moduleDurations.Keys);
      assert multiset(ranked)[ranked[i]] <= 1 by {
        assert multiset(entries)[ranked[i]] <= 1;
      }
      if ranked[i].moduleName == ranked[j].moduleName {
        TwiceInMultiset(ranked, i, j);
        assert false;
      }
    }
  }

  /** Collecting, ranking and converting never alters a module: there is
      one event per key of the mapping, and each event is named after a key
      and carries that key's duration. (That the events start at 0 and never
      move backwards is `SortedTimestamps`.) */
  lemma PipelineKeepsDurations(durations: map<string, real>, ranked: seq<ModuleDuration>)
    requires IsRanking(AsJsObject(durations), ranked)
    ensures ConvertToTEF(ToJs(ranked)).Success?
    ensures var events := ConvertToTEF(ToJs(ranked)).value;
      |events| == |durations| &&
      forall i :: 0 <= i < |events| ==>
        events[i].name in durations && events[i].dur * 1000.0 == durations[events[i].name]
  {
    var jsObject := AsJsObject(durations);
    RankingLength(jsObject, ranked);
    EventsRoundTrip(ranked);
    RankingMembers(jsObject, ranked);
  }

  /** Collecting, ranking and converting never drops or duplicates a module:
      the event names are pairwise distinct and every key of the mapping
      names an event. */
  lemma PipelineKeepsEveryModule(durations: map<string, real>, ranked: seq<ModuleDuration>)
    requires IsRanking(AsJsObject(durations), ranked)
    ensures ConvertToTEF(ToJs(ranked)).Success?
    ensures var events := ConvertToTEF(ToJs(ranked)).value;
      (forall i, j :: 0 <= i < j < |events| ==> events[i].name != events[j].name) &&
      (forall k :: k in durations ==> exists i :: 0 <= i < |events| && events[i].name == k)
  {
    var jsObject := AsJsObject(durations);
    EventsRoundTrip(ranked);
    var events := ConvertToTEF(ToJs(ranked)).value;
    RankingNamesDistinct(jsObject, ranked);
    forall k | k in durations
      ensures exists i :: 0 <= i < |events| && events[i].name == k
    {
      RankingMembers(jsObject, ranked);
      var rec := ModuleDuration(k, durations[k]);
      assert rec in ranked;
      var i :| 0 <= i < |ranked| && ranked[i] == rec;
      assert events[i].name == k;
    }
  }
}
