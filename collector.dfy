/**
 * The duration collector of `breqd.js`: the list of built-in modules
 * (lines 5-18), the five-cycle moving average per module (lines 45-54) and
 * the name-to-duration mapping (lines 56-68). Spawning a child is outside the
 * model: `spawn(moduleName, cycle)` is what the child spawned for that module
 * in that cycle reported, and the runtime's list of built-in modules and its
 * `isBuiltin` test are parameters.
 */
module Collector {
  import opened Wrappers
  import opened ChildOutput
  import opened Averaging

  /** Measurements taken per module (the default of `cycles`). */
  const DefaultCycles: nat := 5

  /** Built-in modules that exist only under the `node:` prefix and that the
      runtime's generic list leaves out. */
  const PrefixOnlyModules: seq<string> := ["node:sea", "node:test", "node:test/reporters"]

  /** The elements of `s` that satisfy `p`, in order. */
  function Filter(s: seq<string>, p: string -> bool): (r: seq<string>)
    ensures |r| <= |s|
    ensures forall x :: x in r <==> x in s && p(x)
  {
    if s == [] then []
    else
      var init := Filter(s[..|s| - 1], p);
      var last := s[|s| - 1];
      assert s == s[..|s| - 1] + [last];
      if p(last) then init + [last] else init
  }

  /** `getBuiltinModulesList`: a copy of the runtime's list followed by those
      prefix-only names that the runtime reports as built in. */
  method BuiltinModulesList(builtinModules: seq<string>, isBuiltin: string -> bool)
    returns (list: seq<string>)
    ensures list == builtinModules + Filter(PrefixOnlyModules, isBuiltin)
  {
    list := builtinModules;
    for i := 0 to |PrefixOnlyModules|
      invariant list == builtinModules + Filter(PrefixOnlyModules[..i], isBuiltin)
    {
      var builtinModule := PrefixOnlyModules[i];
      assert PrefixOnlyModules[..i + 1][..i] == PrefixOnlyModules[..i];
      if isBuiltin(builtinModule) {
        list := list + [builtinModule];
      }
    }
    assert PrefixOnlyModules[..|PrefixOnlyModules|] == PrefixOnlyModules;
  }

  /** The durations measured in cycles 0 to `cycles` - 1, or the failure of
      the first cycle that failed. */
  function Samples(moduleName: string, cycles: nat, spawn: (string, nat) -> ChildResult)
    : (r: Result<seq<real>, MeasureError>)
    ensures r.Success? ==> |r.value| == cycles
  {
    if cycles == 0 then Success([])
    else
      match Samples(moduleName, cycles - 1, spawn)
      case Failure(e) => Failure(e)
      case Success(s) =>
        match ParseModuleDuration(spawn(moduleName, cycles - 1))
        case Failure(e) => Failure(e)
        case Success(d) => Success(s + [d as real])
  }

  /** The samples are exactly the parsed outputs of all cycles when every
      cycle succeeds, and the failure of the first failing cycle otherwise. */
  lemma {:induction false} SamplesMeaning(moduleName: string, cycles: nat,
                                          spawn: (string, nat) -> ChildResult)
    ensures var r := Samples(moduleName, cycles, spawn);
      r.Success? <==> forall c :: 0 <= c < cycles ==> ParseModuleDuration(spawn(moduleName, c)).Success?
    ensures var r := Samples(moduleName, cycles, spawn);
      r.Success? ==> forall c :: 0 <= c < cycles ==>
        r.value[c] == ParseModuleDuration(spawn(moduleName, c)).value as real
    ensures var r := Samples(moduleName, cycles, spawn);
      r.Failure? ==> exists c :: (0 <= c < cycles &&
        (forall c' :: 0 <= c' < c ==> ParseModuleDuration(spawn(moduleName, c')).Success?) &&
        ParseModuleDuration(spawn(moduleName, c)) == Failure(r.error))
  {
    if cycles > 0 {
      SamplesMeaning(moduleName, cycles - 1, spawn);
      var r := Samples(moduleName, cycles, spawn);
      if r.Success? {
        var s := Samples(moduleName, cycles - 1, spawn).value;
        var d := ParseModuleDuration(spawn(moduleName, cycles - 1)).value;
        assert r.value == s + [d as real];
        forall c | 0 <= c < cycles
          ensures r.value[c] == ParseModuleDuration(spawn(moduleName, c)).value as real
        {
          if c < cycles - 1 {
            assert r.value[c] == s[c];
          }
        }
      }
    }
  }

  /** The measurement of one module over `cycles` cycles: the arithmetic mean
      of all samples, or the failure of the first failing cycle. */
  function AverageDuration(moduleName: string, cycles: nat, spawn: (string, nat) -> ChildResult)
    : (r: Result<real, MeasureError>)
    ensures r.Success? <==>
      forall c :: 0 <= c < cycles ==> ParseModuleDuration(spawn(moduleName, c)).Success?
    ensures cycles == 0 ==> r == Success(0.0)
  {
    SamplesMeaning(moduleName, cycles, spawn);
    match Samples(moduleName, cycles, spawn)
    case Success(s) => Success(Mean(s))
    case Failure(e) => Failure(e)
  }

  /** `getModuleDurationAverage`: the moving average of the durations the
      `cycles` children report is their arithmetic mean. The first failing
      child aborts the measurement. */
  method ModuleDurationAverage(moduleName: string, cycles: nat, spawn: (string, nat) -> ChildResult)
    returns (r: Result<real, MeasureError>)
    ensures r == AverageDuration(moduleName, cycles, spawn)
  {
    var averageDuration: real := 0.0;
    ghost var seen: seq<real> := [];
    for cycle := 0 to cycles
      invariant Samples(moduleName, cycle, spawn) == Success(seen)
      invariant |seen| == cycle
      invariant averageDuration == Mean(seen)
    {
      var measured := ParseModuleDuration(spawn(moduleName, cycle));
      if measured.Failure? {
        assert Samples(moduleName, cycle + 1, spawn) == Failure(measured.error);
        SamplesFailurePersists(moduleName, cycle + 1, cycles, spawn);
        return Failure(measured.error);
      }
      var duration := measured.value as real;
      MeanStep(seen, duration);
      averageDuration := averageDuration * (cycle as real / (cycle + 1) as real)
        + duration / (cycle + 1) as real;
      assert Samples(moduleName, cycle + 1, spawn) == Success(seen + [duration]);
      seen := seen + [duration];
    }
    return Success(averageDuration);
  }

  /** Once a cycle has failed, every longer run fails with the same error. */
  lemma {:induction false} SamplesFailurePersists(moduleName: string, k: nat, cycles: nat,
                                                  spawn: (string, nat) -> ChildResult)
    requires k <= cycles
    requires Samples(moduleName, k, spawn).Failure?
    ensures Samples(moduleName, cycles, spawn) == Samples(moduleName, k, spawn)
    decreases cycles - k
  {
    if k < cycles {
      SamplesFailurePersists(moduleName, k, cycles - 1, spawn);
    }
  }

  /** A measured average is never negative and never above the largest safe
      integer, since every sample is a safe non-negative integer. */
  lemma AverageInRange(moduleName: string, cycles: nat, spawn: (string, nat) -> ChildResult)
    requires AverageDuration(moduleName, cycles, spawn).Success?
    ensures 0.0 <= AverageDuration(moduleName, cycles, spawn).value <= MaxSafeInteger as real
  {
    var s := Samples(moduleName, cycles, spawn).value;
    if s != [] {
      SamplesMeaning(moduleName, cycles, spawn);
      forall i | 0 <= i < |s| ensures 0.0 <= s[i] <= MaxSafeInteger as real {
        assert s[i] == ParseModuleDuration(spawn(moduleName, i)).value as real;
      }
      MeanBounds(s, 0.0, MaxSafeInteger as real);
    }
  }

  /** The mapping collected from `names`, measured in order: each name maps
      to its average (a later duplicate overwrites, as an object property
      does), or the failure of the first module whose measurement failed. */
  function Collected(names: seq<string>, spawn: (string, nat) -> ChildResult)
    : (r: Result<map<string, real>, MeasureError>)
    ensures r.Success? ==> forall k :: k in r.value ==> k in names
    ensures r.Success? ==> forall i :: 0 <= i < |names| ==> names[i] in r.value
  {
    if names == [] then Success(map[])
    else
      var n := |names| - 1;
      match Collected(names[..n], spawn)
      case Failure(e) => Failure(e)
      case Success(durations) =>
        match AverageDuration(names[n], DefaultCycles, spawn)
        case Failure(e) => Failure(e)
        case Success(average) => Success(durations[names[n] := average])
  }

  /** The collection succeeds exactly when every module's measurement does;
      its keys are then exactly the names and each maps to that module's
      average. Otherwise it fails with the error of the first failing module. */
  lemma {:induction false} CollectedMeaning(names: seq<string>, spawn: (string, nat) -> ChildResult)
    ensures var r := Collected(names, spawn);
      r.Success? <==> forall i :: 0 <= i < |names| ==> AverageDuration(names[i], DefaultCycles, spawn).Success?
    ensures var r := Collected(names, spawn);
      r.Success? ==> forall k :: k in r.value <==> k in names
    ensures var r := Collected(names, spawn);
      r.Success? ==> forall k :: k in r.value ==> AverageDuration(k, DefaultCycles, spawn) == Success(r.value[k])
    ensures var r := Collected(names, spawn);
      r.Failure? ==> exists i :: (0 <= i < |names| &&
        (forall j :: 0 <= j < i ==> AverageDuration(names[j], DefaultCycles, spawn).Success?) &&
        AverageDuration(names[i], DefaultCycles, spawn) == Failure(r.error))
  {
    if names != [] {
      var n := |names| - 1;
      var init := names[..n];
      CollectedMeaning(init, spawn);
      assert names == init + [names[n]];
      assert forall j :: 0 <= j < n ==> init[j] == names[j];
    }
  }

  /** A failure in a prefix of the list decides the whole collection. */
  lemma {:induction false} CollectedFailurePersists(names: seq<string>, k: nat,
                                                    spawn: (string, nat) -> ChildResult)
    requires k <= |names|
    requires Collected(names[..k], spawn).Failure?
    ensures Collected(names, spawn) == Collected(names[..k], spawn)
    decreases |names| - k
  {
    if k < |names| {
      var n := |names| - 1;
      assert names[..n][..k] == names[..k];
      CollectedFailurePersists(names[..n], k, spawn);
    } else {
      assert names[..k] == names;
    }
  }

  /** `getModuleDurations`: measures every listed module, in list order, and
      maps its name to its average; the first failing measurement aborts the
      whole collection. */
  method ModuleDurations(builtinModules: seq<string>, isBuiltin: string -> bool,
                         spawn: (string, nat) -> ChildResult)
    returns (r: Result<map<string, real>, MeasureError>)
    ensures r == Collected(builtinModules + Filter(PrefixOnlyModules, isBuiltin), spawn)
  {
    var moduleDurations: map<string, real> := map[];
    var names := BuiltinModulesList(builtinModules, isBuiltin);
    for i := 0 to |names|
      invariant Collected(names[..i], spawn) == Success(moduleDurations)
    {
      var name := names[i];
      var average := ModuleDurationAverage(name, DefaultCycles, spawn);
      assert names[..i + 1][..i] == names[..i];
      if average.Failure? {
        CollectedFailurePersists(names, i + 1, spawn);
        return Failure(average.error);
      }
      moduleDurations := moduleDurations[name := average.value];
    }
    assert names[..|names|] == names;
    return Success(moduleDurations);
  }
}
