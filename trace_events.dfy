/**
 * The trace formatter, `convertModuleDurationstoTEF` (breqd.js:94-141): each
 * ranked record becomes a "complete" event (phase "X") of the Chrome Trace
 * Event Format, placed on a timeline anchored at the first record's duration.
 */
module TraceEvents {
  import opened Wrappers
  import opened JsValues
  import opened Ranking

  /** One `{ name, cat, ph, pid, ts, dur }` event. */
  datatype TraceEvent = TraceEvent(name: string, cat: string, ph: string, pid: int, ts: real, dur: real)

  /** The event for `rec` when the first record lasted `maxDuration`:
      `dur` is the duration in thousands, and `ts` is half of the gap to
      the anchor, again in thousands, which centres the events in a viewer. */
  function EventFor(rec: ModuleDuration, maxDuration: real): (event: TraceEvent)
    ensures event.name == rec.moduleName
    ensures event.cat == "measure" && event.ph == "X" && event.pid == 1
    ensures event.dur * 1000.0 == rec.duration
    ensures rec.duration + event.ts * 2000.0 == maxDuration
  {
    TraceEvent(rec.moduleName, "measure", "X", 1,
               (maxDuration - rec.duration) / 2000.0, rec.duration / 1000.0)
  }

  /** The checks made on element `i` (breqd.js:115-128): it must be an object,
      not null, with a string `moduleName` and a numeric `duration`. Each
      check fails with its own error naming the index; an array is an
      object without a `moduleName`. */
  function CheckRecord(v: JsValue, i: nat): (r: Result<ModuleDuration, TypeError>)
    ensures r.Success? <==>
      v.Obj? && Property(v, "moduleName").Str? && Property(v, "duration").Num?
    ensures r.Success? ==>
      r.value == ModuleDuration(Property(v, "moduleName").s, Property(v, "duration").n)
    ensures !IsObject(v) ==> r == Failure(NotAnObject(i))
    ensures v.Null? ==> r == Failure(CannotDestructure(i))
    ensures v.Arr? ==> r == Failure(NameNotString(i))
    ensures v.Obj? && !Property(v, "moduleName").Str? ==> r == Failure(NameNotString(i))
    ensures v.Obj? && Property(v, "moduleName").Str? && !Property(v, "duration").Num? ==>
      r == Failure(DurationNotNumber(i))
  {
    if !IsObject(v) then Failure(NotAnObject(i))
    else if v.Null? then Failure(CannotDestructure(i))
    else
      var moduleName := Property(v, "moduleName");
      var duration := Property(v, "duration");
      if !moduleName.Str? then Failure(NameNotString(i))
      else if !duration.Num? then Failure(DurationNotNumber(i))
      else Success(ModuleDuration(moduleName.s, duration.n))
  }

  /** The events of `elems`, in order, or the error of the first malformed
      element. */
  function EventsOf(elems: seq<JsValue>, maxDuration: real): (r: Result<seq<TraceEvent>, TypeError>)
    ensures r.Success? ==> |r.value| == |elems|
  {
    if elems == [] then Success([])
    else
      var n := |elems| - 1;
      match EventsOf(elems[..n], maxDuration)
      case Failure(e) => Failure(e)
      case Success(events) =>
        match CheckRecord(elems[n], n)
        case Failure(e) => Failure(e)
        case Success(rec) => Success(events + [EventFor(rec, maxDuration)])
  }

  /** The events are those of the elements, in order, when every element is
      well formed; otherwise the error is that of the first malformed one. */
  lemma {:induction false} EventsOfMeaning(elems: seq<JsValue>, maxDuration: real)
    ensures var r := EventsOf(elems, maxDuration);
      r.Success? <==> forall i :: 0 <= i < |elems| ==> CheckRecord(elems[i], i).Success?
    ensures var r := EventsOf(elems, maxDuration);
      r.Success? ==> forall i :: 0 <= i < |elems| ==>
        r.value[i] == EventFor(CheckRecord(elems[i], i).value, maxDuration)
    ensures var r := EventsOf(elems, maxDuration);
      r.Failure? ==> exists i :: (0 <= i < |elems| &&
        (forall j :: 0 <= j < i ==> CheckRecord(elems[j], j).Success?) &&
        CheckRecord(elems[i], i) == Failure(r.error))
  {
    if elems != [] {
      var n := |elems| - 1;
      var init := elems[..n];
      EventsOfMeaning(init, maxDuration);
      assert forall j :: 0 <= j < n ==> init[j] == elems[j];
      var r := EventsOf(elems, maxDuration);
      if r.Success? {
        var events := EventsOf(init, maxDuration).value;
        assert r.value == events + [EventFor(CheckRecord(elems[n], n).value, maxDuration)];
        forall i | 0 <= i < |elems|
          ensures r.value[i] == EventFor(CheckRecord(elems[i], i).value, maxDuration)
        {
          if i < n {
            assert r.value[i] == events[i];
          }
        }
      }
    }
  }

  /** The whole conversion: an array is required; an empty one converts to no
      events; otherwise element 0 must have a numeric duration, the anchor. */
  function ConvertToTEF(moduleDurations: JsValue): (r: Result<seq<TraceEvent>, TypeError>)
    ensures !moduleDurations.Arr? ==> r == Failure(NotAnArray)
    ensures r.Success? ==> moduleDurations.Arr? && |r.value| == |moduleDurations.elems|
    ensures moduleDurations.Arr? && |moduleDurations.elems| > 0 ==>
      (moduleDurations.elems[0].Undefined? || moduleDurations.elems[0].Null? ==>
         r == Failure(CannotReadDuration))
    ensures moduleDurations.Arr? && |moduleDurations.elems| > 0 ==>
      (!moduleDurations.elems[0].Undefined? && !moduleDurations.elems[0].Null? &&
       !Property(moduleDurations.elems[0], "duration").Num? ==>
         r == Failure(FirstDurationNotNumber))
  {
    if !moduleDurations.Arr? then Failure(NotAnArray)
    else if |moduleDurations.elems| == 0 then Success([])
    else
      var first := moduleDurations.elems[0];
      if first.Undefined? || first.Null? then Failure(CannotReadDuration)
      else if !Property(first, "duration").Num? then Failure(FirstDurationNotNumber)
      else EventsOf(moduleDurations.elems, Property(first, "duration").n)
  }

  /** A prefix that already fails decides the outcome of the whole sequence. */
  lemma {:induction false} EventsOfPrefixFailure(elems: seq<JsValue>, k: nat, maxDuration: real)
    requires k <= |elems|
    requires EventsOf(elems[..k], maxDuration).Failure?
    ensures EventsOf(elems, maxDuration) == EventsOf(elems[..k], maxDuration)
    decreases |elems| - k
  {
    if k < |elems| {
      var n := |elems| - 1;
      assert elems[..n][..k] == elems[..k];
      EventsOfPrefixFailure(elems[..n], k, maxDuration);
    } else {
      assert elems[..k] == elems;
    }
  }

  /** `convertModuleDurationstoTEF`: checks the input, takes element 0's
      duration as the anchor and pushes one event per element. */
  method ConvertModuleDurationsToTEF(moduleDurations: JsValue)
    returns (r: Result<seq<TraceEvent>, TypeError>)
    ensures r == ConvertToTEF(moduleDurations)
  {
    if !moduleDurations.Arr? {
      return Failure(NotAnArray);
    }
    var elems := moduleDurations.elems;
    if |elems| == 0 {
      return Success([]);
    }
    if elems[0].Undefined? || elems[0].Null? {
      return Failure(CannotReadDuration);
    }
    var first := Property(elems[0], "duration");
    if !first.Num? {
      return Failure(FirstDurationNotNumber);
    }
    var maxDuration := first.n;
    var tef: seq<TraceEvent> := [];
    for i := 0 to |elems|
      invariant EventsOf(elems[..i], maxDuration) == Success(tef)
    {
      var moduleDuration := elems[i];
      assert elems[..i + 1][..i] == elems[..i];
      assert elems[..i + 1][i] == moduleDuration;
      if !IsObject(moduleDuration) {
        EventsOfPrefixFailure(elems, i + 1, maxDuration);
        return Failure(NotAnObject(i));
      }
      if moduleDuration.Null? {
        EventsOfPrefixFailure(elems, i + 1, maxDuration);
        return Failure(CannotDestructure(i));
      }
      var moduleName := Property(moduleDuration, "moduleName");
      var duration := Property(moduleDuration, "duration");
      if !moduleName.Str? {
        EventsOfPrefixFailure(elems, i + 1, maxDuration);
        return Failure(NameNotString(i));
      }
      if !duration.Num? {
        EventsOfPrefixFailure(elems, i + 1, maxDuration);
        return Failure(DurationNotNumber(i));
      }
      tef := tef + [TraceEvent(moduleName.s, "measure", "X", 1,
                               (maxDuration - duration.n) / 2000.0, duration.n / 1000.0)];
    }
    assert elems[..|elems|] == elems;
    return Success(tef);
  }

  /** The duration of element `i`, or 0 where there is none. */
  function DurationAt(elems: seq<JsValue>, i: nat): (d: real)
  {
    if i < |elems| && !elems[i].Undefined? && !elems[i].Null? && Property(elems[i], "duration").Num?
    then Property(elems[i], "duration").n else 0.0
  }

  /** A successful conversion has one event per element, in the same order,
      named after the element's `moduleName`, with the fixed category, phase
      and process id, `dur` the duration over 1000 and `ts` half the gap to
      element 0's duration over 1000; so the first event starts at 0. */
  lemma ConvertShape(moduleDurations: JsValue)
    requires ConvertToTEF(moduleDurations).Success?
    ensures moduleDurations.Arr?
    ensures var events := ConvertToTEF(moduleDurations).value;
      var elems := moduleDurations.elems;
      |events| == |elems| &&
      forall i :: 0 <= i < |elems| ==>
        elems[i].Obj? && Property(elems[i], "moduleName").Str? &&
        Property(elems[i], "duration").Num? &&
        events[i].name == Property(elems[i], "moduleName").s &&
        events[i].cat == "measure" && events[i].ph == "X" && events[i].pid == 1 &&
        events[i].dur == DurationAt(elems, i) / 1000.0 &&
        events[i].ts == (DurationAt(elems, 0) - DurationAt(elems, i)) / 2000.0
    ensures var events := ConvertToTEF(moduleDurations).value;
      |events| > 0 ==> events[0].ts == 0.0
  {
    var elems := moduleDurations.elems;
    if elems != [] {
      EventsOfMeaning(elems, DurationAt(elems, 0));
    }
  }

  /** The conversion fails exactly when the input is not an array, or is a
      non-empty array whose element 0 has no numeric duration or one of whose
      elements is malformed. */
  lemma ConvertFailures(moduleDurations: JsValue)
    ensures !moduleDurations.Arr? ==> ConvertToTEF(moduleDurations) == Failure(NotAnArray)
    ensures moduleDurations == Arr([]) ==> ConvertToTEF(moduleDurations) == Success([])
    ensures moduleDurations.Arr? && |moduleDurations.elems| > 0 ==>
      var elems := moduleDurations.elems;
      (ConvertToTEF(moduleDurations).Success? <==>
        (!elems[0].Undefined? && !elems[0].Null? && Property(elems[0], "duration").Num? &&
         forall i :: 0 <= i < |elems| ==> CheckRecord(elems[i], i).Success?))
  {
    if moduleDurations.Arr? && |moduleDurations.elems| > 0 {
      var elems := moduleDurations.elems;
      EventsOfMeaning(elems, DurationAt(elems, 0));
    }
  }

  /** The JavaScript object for one record. */
  function RecordToJs(rec: ModuleDuration): (v: JsValue)
  {
    Obj(map["moduleName" := Str(rec.moduleName), "duration" := Num(rec.duration)])
  }

  /** The JavaScript array the ranker hands to the formatter. */
  function ToJs(records: seq<ModuleDuration>): (v: JsValue)
  {
    Arr(seq(|records|, i requires 0 <= i < |records| => RecordToJs(records[i])))
  }

  /** The events of well-formed records, anchored at the first one. */
  function Events(records: seq<ModuleDuration>): (events: seq<TraceEvent>)
    ensures |events| == |records|
  {
    if records == [] then []
    else seq(|records|, i requires 0 <= i < |records| => EventFor(records[i], records[0].duration))
  }

  /** Records produced by the ranker always convert, to `Events(records)`. */
  lemma ConvertRecords(records: seq<ModuleDuration>)
    ensures ConvertToTEF(ToJs(records)) == Success(Events(records))
  {
    var elems := ToJs(records).elems;
    if records != [] {
      forall i | 0 <= i < |elems|
        ensures CheckRecord(elems[i], i) == Success(records[i])
      {
        assert elems[i] == RecordToJs(records[i]);
      }
      assert Property(elems[0], "duration") == Num(records[0].duration);
      var r := EventsOf(elems, records[0].duration);
      EventsOfMeaning(elems, records[0].duration);
      assert r.Success?;
      assert r.value == Events(records);
    }
  }

  /** The conversion loses nothing: record `i` can be read back from event
      `i`, its name from `name` and its duration from `dur` times 1000. */
  lemma EventsRoundTrip(records: seq<ModuleDuration>)
    ensures ConvertToTEF(ToJs(records)).Success?
    ensures var events := ConvertToTEF(ToJs(records)).value;
      |events| == |records| &&
      forall i :: 0 <= i < |records| ==>
        events[i].name == records[i].moduleName && events[i].dur * 1000.0 == records[i].duration
  {
    ConvertRecords(records);
    var events := Events(records);
    forall i | 0 <= i < |records|
      ensures events[i].name == records[i].moduleName
      ensures events[i].dur * 1000.0 == records[i].duration
    {
      assert events[i] == EventFor(records[i], records[0].duration);
    }
  }

  /** When the records are sorted by descending duration, as the ranker
      leaves them, the first event starts at 0, no event starts before 0 and
      the start times never decrease. */
  lemma {:induction false} SortedTimestamps(records: seq<ModuleDuration>)
    requires SortedDescending(records)
    ensures ConvertToTEF(ToJs(records)).Success?
    ensures var events := ConvertToTEF(ToJs(records)).value;
      (|events| > 0 ==> events[0].ts == 0.0) &&
      (forall i :: 0 <= i < |events| ==> events[i].ts >= 0.0) &&
      (forall i, j :: 0 <= i < j < |events| ==> events[i].ts <= events[j].ts)
  {
    ConvertRecords(records);
    var events := Events(records);
    forall i | 0 <= i < |events| ensures events[i].ts >= 0.0 {
      assert events[i] == EventFor(records[i], records[0].duration);
      if i > 0 {
        assert records[0].duration >= records[i].duration;
      }
    }
    forall i, j | 0 <= i < j < |events| ensures events[i].ts <= events[j].ts {
      assert events[i] == EventFor(records[i], records[0].duration);
      assert events[j] == EventFor(records[j], records[0].duration);
      assert records[i].duration >= records[j].duration;
    }
  }
}
