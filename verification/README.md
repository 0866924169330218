# tiny-server-timing in Dafny

A model of the `ServerTiming` class of tiny-server-timing: a per-request
recorder of named timing intervals that renders the finished ones as the
value of the `Server-Timing` response header field (section 3 of the W3C
Server Timing specification), optionally with a `Timing-Allow-Origin`
header.

The recorder state (`ServerTiming.Recorder`) is immutable data:

- `pending`: an ordered association list from name to start record
  (`OrderedMap`), keeping the semantics of a JavaScript `Map`: `set` on a
  present key replaces its value in place, `set` on a new key appends,
  `delete` removes the key, iteration follows insertion order;
- `finished`: the append-only sequence of finished timings;
- the settings `autoEnd`, `precision` and `allowOrigin`.

Transitions are pure functions: `Start`, `End`, `Add`, `Time`, `AutoEnd`
and `GetHeaders`. An operation that can throw returns a `Step`: the
recorder after the call together with a `Result` holding either the return
value or the exception. The host clock is not modelled: every clock reading
is a parameter, in milliseconds, and the auto-end loop of `getHeaders` takes
a function `clock` giving its successive readings.

Duration formatting is `Number.prototype.toFixed` (section 21.1.3.3 of
ECMA-262) over exact real numbers (`Decimal.ToFixed`), including its
RangeError for a digit count outside 0..100. Its partner is a description of
fixed notation independent of the construction (`-?(0|[1-9][0-9]*)` followed
by `\.[0-9]{f}` when f > 0, plus the value the digits denote): the lemmas prove that the result is
in that notation and is the nearest such decimal to the duration.

Modules: `Wrappers` (Option, Result), `Strings` (prefix, containment,
`Array.prototype.join`), `Decimal` (toFixed), `OrderedMap` (JavaScript
`Map`), `HeaderFormat` (one metric and a reader for it), `ServerTiming`
(the class), `HeaderProperties` and `RecorderTraces` (properties of the
rendered header and of call sequences).

`time` has no `try/finally`: when the callback throws, `end` never runs and
the timing for that name stays pending (`ServerTiming.TimeOfThrowingCallback`).

## Model

| member | source | states |
|---|---|---|
| ServerTiming.New | src/index.ts:40-44 | a new recorder has nothing pending or finished; `autoEnd` is true only when given as true, `precision` defaults to 2, `allowOrigin` is exactly the given option (unset unless given) |
| ServerTiming.Start | src/index.ts:46-48 | afterwards `name` maps to a record of the clock reading and the description, replacing any earlier record silently; every other name maps as before; a present key keeps its position and a new one goes last; finished timings and settings are unchanged; distinct keys are kept |
| ServerTiming.End | src/index.ts:50-62 | with no pending record for `name` it fails with NoPendingTask(name) and leaves the state unchanged; otherwise it succeeds, removes exactly `name` from the pending map, appends exactly one finished timing with the elapsed time and the description given to start, leaves every other pending name as it was, and gives a non-negative duration when the clock did not go back |
| ServerTiming.NoPendingTaskMessage | src/index.ts:55 | the error message contains "no pending task" and the offending name |
| ServerTiming.Error.Message | src/index.ts:55 | the message of the exception end throws contains "no pending task" and the name it was called with |
| ServerTiming.Add | src/index.ts:64-66 | exactly one finished timing is appended at the end, with the duration taken as given (no check); earlier timings, pending map and settings are unchanged |
| ServerTiming.Time | src/index.ts:68-73 | if the callback throws, its exception is re-thrown and the state is what the callback left (end is not run); if the callback returns but left no pending record for `name`, end's NoPendingTask(name) is thrown and the state is what the callback left; otherwise the callback's value is returned, exactly that record is removed and one timing from its start reading to the end reading, with its description, is appended |
| ServerTiming.AfterCallback | src/index.ts:70-72 | the part of time after the callback: its exception passes through untouched; a returned value is handed back after a successful end, and end's NoPendingTask(name) is thrown with the state unchanged when `name` is not pending |
| ServerTiming.EndAfterStart | src/index.ts:46-62 | end right after start of the same name succeeds, removes the record just made and appends one timing spanning the two readings with the description given to start |
| ServerTiming.TimeOfPlainCallback | src/index.ts:68-73 | for a callback that returns without touching the recorder, time returns its value and leaves one finished timing spanning the two clock readings, with `name` no longer pending and every other name as before |
| ServerTiming.TimeOfThrowingCallback | src/index.ts:68-73 | for a callback that throws without touching the recorder, time re-throws, finishes nothing, and the record for `name` stays pending |
| ServerTiming.EndEachClosesInOrder | src/index.ts:83-87 | ending the pending names in map order never throws, empties the pending map and appends the timings in map order, the k-th ended at the k-th clock reading |
| ServerTiming.EndEach | src/index.ts:84-86 | calling end for each name in turn only ever appends finished timings (earlier ones kept, in place) and keeps the settings; the only exception it can stop on is end's NoPendingTask |
| ServerTiming.AutoEnd | src/index.ts:83-87 | for a map with distinct keys the auto-end loop succeeds, leaves nothing pending, and appends exactly the reference list `AutoEnded` (one timing per previously pending name, in map order) |
| ServerTiming.Tokens | src/index.ts:89-99 | rendering fails exactly when there is something to format and the precision is outside 0..100; otherwise it yields one metric per finished timing, in order, each the metric of that timing with its duration formatted by toFixed |
| ServerTiming.ServerTimingValue | src/index.ts:89-103 | the Server-Timing value exists exactly when there is nothing to format or the precision is within 0..100, and it is the empty string when nothing is finished |
| ServerTiming.GetHeaders | src/index.ts:82-110 | without autoEnd the state is untouched; with autoEnd nothing stays pending and the previously pending timings are appended in map order; the only failure is the precision RangeError; the Server-Timing value is the ", "-join of the metrics; Timing-Allow-Origin is present exactly when allowOrigin is a non-empty string, and then equals it |
| HeaderProperties.GetHeadersTwice | src/index.ts:82-110 | two consecutive calls to getHeaders give the same result and the same state |
| HeaderProperties.ValueListsEveryTiming | src/index.ts:89-102 | the Server-Timing value contains, for every finished timing, its name followed by ";dur=", and `desc="<description>"` verbatim when the description is non-empty |
| HeaderProperties.MetricReadsBack | src/index.ts:89-99 | each metric reads back as the timing's name, a duration in fixed notation with exactly `precision` fraction digits that is the nearest such decimal to the duration, and the description exactly when it is non-empty (names without ';') |
| HeaderProperties.ValueAfterAppend | src/index.ts:98-102 | one more finished timing extends the value by ", " and its metric, or makes the value that metric when nothing was finished |
| HeaderProperties.EmptyValue | src/index.ts:89-103 | with nothing finished and nothing to auto-end, getHeaders succeeds for any precision and the Server-Timing value is the empty string |
| HeaderProperties.PrecisionZeroValue | src/index.test.ts:70-79 | a single finished timing with non-negative duration and no description to render (absent or empty), at precision 0 and with nothing pending to auto-end (autoEnd off, or nothing pending), renders as the name, ";dur=" and one or more digits only |
| HeaderProperties.MetricMentions | src/index.ts:92-98 | a metric contains its name followed by ";dur=", and `desc="<description>"` for a non-empty description |
| HeaderFormat.Token | src/index.ts:92-98 | the ";"-join of the values is the name, ";dur=", the duration, then `;desc="<d>"` only for a non-empty description |
| HeaderFormat.ParseTokenRoundTrip | src/index.ts:92-98 | reading a written metric gives back its name, its duration and its description when non-empty, for name and duration without ';' |
| Decimal.ToFixedIsNearestDecimal | src/index.ts:91 | toFixed with 0..100 digits yields `-?(0\|[1-9][0-9]*)` followed by `\.[0-9]{f}` when f > 0 (no leading zeros), negative exactly for negative durations, whose digits denote the decimal with f fraction digits nearest the duration (ties away from zero) |
| Decimal.ToFixedZeroDigitsIsInteger | src/index.ts:91 | with precision 0 the duration has no decimal point: an optional minus sign and digits, only digits for non-negative durations |
| Decimal.ToFixed | src/index.ts:91 | toFixed throws a RangeError exactly when the digit count is outside 0..100 |
| Decimal.NatToDigits | src/index.ts:91 | the decimal digits of an integer, without leading zeros, read back as that integer |
| Decimal.PointDigits | src/index.ts:91 | with no fraction digits the digits pass through unchanged; otherwise the result has a decimal point with exactly f characters after it and at least one before it |
| Decimal.NearestScaled | src/index.ts:91 | the integer chosen for the digits is within one half of the duration scaled by 10^f, the larger one on a tie |
| OrderedMap.Get | src/index.ts:53 | `get` finds a value exactly when the key is among the map's keys |
| OrderedMap.Set | src/index.ts:47 | after `set`, the key maps to the new value and every other key maps as before |
| OrderedMap.SetKeys | src/index.ts:47 | `set` keeps a present key in its position and appends a new key last |
| OrderedMap.SetIsUpdate | src/index.ts:47 | `set` is the update of the abstract finite map |
| OrderedMap.Delete | src/index.ts:57 | after `delete`, the key is absent and every other key maps as before |
| OrderedMap.DeleteKeys | src/index.ts:57 | after `delete` the keys are exactly the previous keys other than the deleted one |
| OrderedMap.DeleteAt | src/index.ts:57 | on a map with distinct keys, `delete` of a present key cuts out just that entry: the entries before it and after it stay, in insertion order |
| OrderedMap.DeleteIsRemoval | src/index.ts:57 | `delete` is removal from the abstract finite map |
| OrderedMap.GetIsLookup | src/index.ts:53 | `get` is lookup in the abstract finite map |
| OrderedMap.DeleteUndoesNewSet | src/index.ts:47-57 | setting a new key and deleting it restores the map exactly |
| Strings.JoinWith | src/index.ts:98-102 | a non-empty list joins to a string beginning with its first part |
| Strings.JoinAppend | src/index.ts:102 | joining one more part extends the join by the separator and that part |
| Strings.JoinContainsPart | src/index.ts:102 | every part occurs in the join |
| RecorderTraces.RunInvariants | src/index.ts:33-34 | over any sequence of start, end and add calls (getHeaders and time are not among the calls), finished timings are only appended, never removed or reordered; settings never change; pending keys stay distinct |
| RecorderTraces.RunNonNegative | src/index.ts:50-61 | under a clock that never goes back and non-negative add durations, every finished timing has a non-negative duration |
| RecorderTraces.AutoEndNonNegative | src/index.ts:83-87 | auto-ending under a clock that never goes back, read no earlier than every pending start, gives non-negative durations |
| RecorderTraces.StartEndRestores | src/index.ts:46-62 | start then end of a name that is not pending succeeds and gives back the same recorder with one timing appended, spanning the two readings |
| RecorderTraces.RepeatedStartEnd | src/index.ts:46-62 | a loop of N start/end pairs of a name that is not pending succeeds and gives back the same recorder with N timings appended: one per pair, in order, each with that name and its pair's elapsed time, none merged |
| RecorderTraces.RepeatedStartEndFresh | src/index.test.ts:33-39 | on a fresh recorder, N start/end pairs of one name leave nothing pending and N finished timings with that name |
| RecorderTraces.TokensOfOneName | src/index.ts:89-99 | when all finished timings share a name and the precision is in range, rendering succeeds with one metric per timing, each beginning with that name and ";dur=" and reading back as that name |
| RecorderTraces.HeaderOfOneName | src/index.ts:89-102 | when nothing is pending and all finished timings share a name, the value is the ", "-join of the rendered metric list, which has one metric per finished timing (the i-th rendering the i-th timing), each beginning with that name and ";dur=" and reading back as that name when it has no ';' |
| RecorderTraces.RepeatedStartEndHeader | src/index.test.ts:33-44 | on a fresh recorder, N start/end pairs of one name make the header the ", "-join of the rendered metric list of the finished timings, which has exactly N metrics, one per pair and none merged, each beginning with that name and ";dur=" and reading back as that name when it has no ';' |

## Left out

- The host clock `now()` (src/index.ts:23-30) with its choice of `process.hrtime`, `performance.now` or `Date.now`: every reading is a parameter; monotonicity is a hypothesis of the lemmas that need it.
- Floating point: durations are exact reals, so binary rounding of JavaScript numbers (for instance 1.005 rendered with two digits) is not reproduced, and NaN and the infinities do not occur.
- Decimal.ToFixed: for magnitudes of 10^21 or more JavaScript's toFixed falls back to `Number::toString` (exponent notation); the model keeps writing fixed notation there.
- ServerTiming.New: precision is an integer; a fractional precision, which toFixed truncates, is not modelled.
- `timeAsync` (src/index.ts:75-80): its point is Promise scheduling; its recorder effects are those of `time` with the clock read when the promise settles.
- ServerTiming.Time: the callback is a function of the recorder state; its other effects are outside the model.
- The description is written verbatim into a quoted string without escaping; nothing here claims the header is well formed when a description or name contains '"', ';' or ','.
- RecorderTraces.Run stops at the first exception; a handler that catches a failed `end` and continues sees the state unchanged (`ServerTiming.End`), which is the same as skipping that call.
- A `getEntries` accessor does not exist in the code and is not modelled.
- The test file, the lint and the bundler configuration have no logic of their own.
