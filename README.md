# breqd in Dafny

A Dafny model of `breqd`, a tool that measures how long each built-in module of
Node.js takes to load. It ranks the modules by load time and writes the ranking
as a Chrome Trace Event Format file for a trace viewer. The model covers the
three stages of `breqd.js` and the checks each stage makes on its input:

- **Collector** (`child_output.dfy`, `averaging.dfy`, `collector.dfy`). It builds
  the module list. For each module it runs five cycles, each spawning a child
  that reports the load time on its standard error. It validates what every
  child reported (exit status, signal, the digits of the output, the
  safe-integer bound) and combines the samples with a moving average. The
  result is a name-to-duration mapping. Spawning is a parameter:
  `spawn(moduleName, cycle)` is what the child of that cycle reported.
- **Ranker** (`ranking.dfy`). It turns the mapping (a JavaScript object of
  `JsValue`s) into `{moduleName, duration}` records. A non-number value raises a
  `TypeError`. The records are sorted in place on an array by descending
  duration.
- **Formatter** (`trace_events.dfy`). It turns the ranked array into "complete"
  events (`ph: "X"`, `cat: "measure"`, `pid: 1`). The first record's duration is
  the anchor: `ts = (max - d)/2000` and `dur = d/1000`. Every shape check of the
  source raises its own `TypeError` case.
- `pipeline.dfy` chains the ranker and the formatter and states what the chain
  keeps. `js_values.dfy` models the JavaScript values the code inspects with
  `typeof`, property reads and destructuring.

Each imperative function of the source is a method with a loop:
`BuiltinModulesList`, `ModuleDurationAverage`, `ModuleDurations`,
`SortModuleDurations` (with the in-place `SortDescending`) and
`ConvertModuleDurationsToTEF`. Each method is proved against a specification
function or states its property outright. The lemmas prove what those
specifications promise.

Three facts about the code shape the model:

- The type declaration `breqd.d.ts:6` names the record field `module`, but the
  code builds `moduleName` (`breqd.js:83`). The model follows the code.
- The ranker checks only that each value is a number (`breqd.js:79`).
  Finiteness and sign are not checked, so the model checks neither.
- The key check at `breqd.js:74` cannot fail, because object keys are strings,
  so the model has no case for it.

## Model

| member | source | states |
|---|---|---|
| `ChildOutput.ParseModuleDuration` | breqd.js:28-42 | Succeeds exactly when the status is 0, no signal is set, the output has at least one digit and the digits' value is at most 2^53-1. The result is that value. A non-zero status or a signal gives the child-failed error carrying status, signal and output. |
| `ChildOutput.Digits` | breqd.js:32 | Removing every character that is not an ASCII digit leaves only digits. |
| `ChildOutput.DigitsKeepsDigits` | breqd.js:32 | The stripped output keeps exactly the digit characters of the input, is no longer than it, and leaves an all-digit string unchanged. |
| `ChildOutput.DigitsAppend` | breqd.js:32 | Stripping distributes over concatenation. |
| `ChildOutput.Decimal` | script.js:7-8 | The child prints a duration as a non-empty string of digits with no leading zero. |
| `ChildOutput.DecimalValue` | breqd.js:37 | The value `Number` gives a string of decimal digits, read left to right. It is 0 exactly when every digit is `0`, the empty string included. |
| `ChildOutput.DecimalRoundTrip` | breqd.js:37 | Parsing a printed number as a decimal gives back the number. |
| `ChildOutput.ParseReadsPrintedDuration` | breqd.js:32-42 | A clean exit whose output is the printed duration and a newline parses to that duration whenever it is a safe integer. |
| `Averaging.MeanStep` | breqd.js:51 | Folding sample x into the mean of c samples, with weights c/(c+1) and 1/(c+1), gives the mean of all c+1 samples. This is the update at zero-based cycle c. |
| `Averaging.SumAppend` | breqd.js:51 | Appending a sample adds it to the sum. |
| `Averaging.SumPermutation` | breqd.js:49-52 | Reordering the samples does not change their sum. |
| `Averaging.RemoveMatching` | breqd.js:49-52 | Proof helper for `SumPermutation`, a generic multiset fact: removing matching elements from two equal multisets keeps them equal. |
| `Averaging.MeanPermutation` | breqd.js:49-52 | The averaged duration does not depend on the order of the samples. |
| `Averaging.MeanBounds` | breqd.js:49-52 | The mean lies between a lower and an upper bound of the samples. |
| `Collector.Filter` | breqd.js:11-15 | The kept names are exactly those of the input that pass the predicate, and there are no more of them than inputs. |
| `Collector.BuiltinModulesList` | breqd.js:5-18 | The list is the runtime's list followed by the prefix-only names `node:sea`, `node:test` and `node:test/reporters` that pass `isBuiltin`, in that order. |
| `Collector.Samples` | breqd.js:49-50 | A successful run of `cycles` cycles yields exactly `cycles` samples. |
| `Collector.SamplesMeaning` | breqd.js:49-50 | The samples succeed exactly when every cycle's child output parses. Sample c is then cycle c's duration. Otherwise the error is that of the first failing cycle. |
| `Collector.SamplesFailurePersists` | breqd.js:49-50 | Once a cycle fails, running more cycles fails with the same error. |
| `Collector.AverageDuration` | breqd.js:45-54 | The measurement of one module succeeds exactly when every cycle's child output parses. After zero cycles it is 0. |
| `Collector.ModuleDurationAverage` | breqd.js:45-54 | The moving-average loop returns `AverageDuration`. That is the arithmetic mean of the samples of all cycles, 0 after zero cycles, or the first cycle's failure. |
| `Collector.AverageInRange` | breqd.js:45-54 | A successful average is between 0 and 2^53-1. |
| `Collector.Collected` | breqd.js:56-68 | A successful collection has exactly the listed names as keys. |
| `Collector.CollectedMeaning` | breqd.js:56-68 | The collection succeeds exactly when every listed module's measurement does. Its keys are then exactly the listed names, and each maps to that module's average. Otherwise it fails with the error of the first failing module. |
| `Collector.CollectedFailurePersists` | breqd.js:63-65 | A failure while measuring a prefix of the list aborts the whole collection with that error. |
| `Collector.ModuleDurations` | breqd.js:56-68 | The loop returns `Collected` over the list that `getBuiltinModulesList` builds. |
| `Ranking.EntriesAdd` | breqd.js:73-84 | Adding one key contributes one new record, distinct from those already collected. |
| `Ranking.EntriesCount` | breqd.js:72-84 | There are as many records as keys. |
| `Ranking.RankingMembers` | breqd.js:72-84 | Every ranked record is an entry of the map: its name is a key and its duration that key's value. Every numeric entry has a record. |
| `Ranking.RankingLength` | breqd.js:72-84 | A ranking of an all-numeric map has exactly one record per key. |
| `Ranking.Swap` | breqd.js:87-89 | Exchanging two elements changes only those two and keeps the multiset of elements. |
| `Ranking.InsertDescending` | breqd.js:87-89 | Inserting element i into the sorted prefix leaves the first i+1 elements sorted descending and holding the same elements as before. Everything after them is unchanged. |
| `Ranking.SortDescending` | breqd.js:86-89 | After the in-place sort the array is sorted by descending duration and is a permutation of what it held. |
| `Ranking.SortModuleDurations` | breqd.js:70-92 | Fails with a `TypeError` carrying a non-number value exactly when some value is not a number. Otherwise it returns one record per key: a permutation of the map's entries, sorted by descending duration, of length equal to the key count. |
| `TraceEvents.EventFor` | breqd.js:130-137 | The event carries the record's name, category "measure", phase "X" and process 1. Its `dur` times 1000 is the duration, and the duration plus `ts` times 2000 is the anchor. |
| `TraceEvents.CheckRecord` | breqd.js:115-128 | An element passes exactly when it is a plain object with a string `moduleName` and a numeric `duration`. The record read is those two fields. Each failed check gives its own `TypeError` naming index i. A non-object gives `NotAnObject`, `null` gives `CannotDestructure`, and an array or a missing or non-string name gives `NameNotString`. A non-numeric duration gives `DurationNotNumber`. |
| `TraceEvents.EventsOf` | breqd.js:114-138 | A successful pass over the elements yields one event per element. |
| `TraceEvents.EventsOfMeaning` | breqd.js:114-138 | The events are produced exactly when every element is well formed. Event i is then element i's event. Otherwise the error is that of the first malformed element. |
| `TraceEvents.EventsOfPrefixFailure` | breqd.js:114-128 | A malformed element aborts the conversion with its error, whatever follows it. |
| `TraceEvents.ConvertToTEF` | breqd.js:94-141 | A non-array fails with `NotAnArray`. If element 0 is `undefined` or `null`, the conversion fails with `CannotReadDuration`. If element 0 is any other value whose `duration` is not a number, it fails with `FirstDurationNotNumber`. A successful conversion has one event per element. |
| `TraceEvents.ConvertModuleDurationsToTEF` | breqd.js:94-141 | The index loop returns `ConvertToTEF`: the array check, the empty case, the check of element 0's duration, then one event per element or the first element's error. |
| `TraceEvents.ConvertShape` | breqd.js:110-137 | A successful conversion has one event per element, in order. Each element is an object with a string `moduleName` and a numeric `duration`. Each event is named after the element's `moduleName`, with `cat` "measure", `ph` "X", `pid` 1, `dur = d/1000` and `ts = (d0 - d)/2000`. The first event has `ts` 0. |
| `TraceEvents.ConvertFailures` | breqd.js:99-109 | A non-array fails with `NotAnArray` and `[]` converts to `[]`. A non-empty array converts exactly when element 0 has a numeric duration and every element is well formed. |
| `TraceEvents.ConvertRecords` | breqd.js:114-140 | The records the ranker builds always convert, to the events anchored at the first record. |
| `TraceEvents.EventsRoundTrip` | breqd.js:130-137 | The conversion loses nothing: record i is recovered from event i, its name from `name` and its duration as `dur` times 1000. |
| `TraceEvents.SortedTimestamps` | breqd.js:135-136 | For records sorted descending, the first event starts at 0, no event starts before 0 and start times never decrease. |
| `Pipeline.TwiceInMultiset` | breqd.js:72-84 | Proof helper for `RankingNamesDistinct`, a generic multiset fact: a value at two positions of a sequence occurs at least twice in its multiset. |
| `Pipeline.RankingNamesDistinct` | breqd.js:72-84 | The records of a ranking have pairwise distinct names. |
| `Pipeline.PipelineKeepsDurations` | breqd.js:70-141 | Ranking a collected mapping and converting it gives one event per key. Each event is named after a key and carries that key's duration. |
| `Pipeline.PipelineKeepsEveryModule` | breqd.js:70-141 | Ranking a collected mapping and converting it gives pairwise distinct event names, and every key names an event. |

## Left out

- Spawning the child (`breqd.js:20-26`: `spawnSync`, `process.execPath`, the path of `script.js`) is not modelled. Its outcome is the `spawn(moduleName, cycle)` parameter. That parameter is a function, so a module listed twice is given the same outcomes both times.
- `script.js` (timing with `process.hrtime` and loading the module) is not part of this model. Only the format of its output is modelled, by `Decimal`.
- `bin.js` (console output, the file name from version, platform and architecture, `JSON.stringify`, `writeFileSync`) is not part of this model.
- `Module.builtinModules` and `Module.isBuiltin` are runtime state. They are the `builtinModules` and `isBuiltin` parameters.
- Durations are Dafny `real`s. IEEE-754 rounding in the moving average and in the `/2000` and `/1000` divisions is not modelled. NaN and Infinity are not modelled either, although they pass `typeof === 'number'`. `Number(output)` is exact here because its result is only accepted up to 2^53-1, where doubles are exact.
- The child's standard error is a decoded string. Buffer decoding is not modelled. `trim()` is left out because whitespace is removed by the non-digit filter anyway.
- Ranking.SortModuleDurations: the order of `Object.keys` is left open (a key is chosen arbitrarily at each step). So, when several values are not numbers, the error carries one of them, not necessarily the first in insertion order. The source's sort is stable, so tied durations keep `Object.keys` order there. The model leaves that order open, so ties may end in any order.
- The key type check at `breqd.js:74` cannot fire and has no case. A non-object input to `sortModuleDurations` is not modelled: the input is a map. In the source, `Object.keys` coerces a primitive: a string gives its indices and a number gives no keys. It throws a `TypeError` on `null` and `undefined`.
- The source sorts with the runtime's sort and the comparator `b.duration - a.duration`. The model uses an insertion sort, which any comparison sort may be replaced by. The source pushes into a growable array; the model collects the records in a sequence and copies them into an array, which it sorts in place.
- JavaScript property lookup through prototypes, getters, array holes and properties of non-plain objects are not modelled. Only plain objects carry the `moduleName` and `duration` properties.
- `test.js` expects every duration to be strictly positive. A child may print 0, so the model only proves durations are non-negative (`AverageInRange`).
