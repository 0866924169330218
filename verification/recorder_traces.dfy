/** Sequences of calls a request handler makes on one recorder, and the
    invariants every such sequence keeps. */
module RecorderTraces {
  import opened Wrappers
  import opened Strings
  import OrderedMap
  import Decimal
  import HeaderFormat
  import HeaderProperties
  import opened ServerTiming

  datatype Call =
    | StartCall(name: string, description: Option<string>, at: real)
    | EndCall(name: string, at: real)
    | AddCall(name: string, durationMs: real, description: Option<string>)

  function Apply(r: Recorder, c: Call): Step<(), Error> {
    match c
    case StartCall(name, description, at) => Step(Start(r, name, description, at), Success(()))
    case EndCall(name, at) => End(r, name, at)
    case AddCall(name, durationMs, description) => Step(Add(r, name, durationMs, description), Success(()))
  }

  /** The calls made in order; an uncaught exception ends the sequence. */
  function Run(r: Recorder, calls: seq<Call>): Step<(), Error>
    decreases |calls|
  {
    if |calls| == 0 then Step(r, Success(()))
    else
      var s := Apply(r, calls[0]);
      if s.result.Failure? then s else Run(s.recorder, calls[1..])
  }

  /** `fs'` is `fs` with zero or more timings appended. */
  predicate Extends(fs: seq<FinishedTiming>, fs': seq<FinishedTiming>) {
    |fs| <= |fs'| && fs'[..|fs|] == fs
  }

  /** Whatever the calls, finished timings are only ever appended — never
      removed or reordered — the settings stay, and the pending map never
      holds a name twice. */
  lemma {:induction false} RunInvariants(r: Recorder, calls: seq<Call>)
    ensures var s := Run(r, calls);
      && Extends(r.finished, s.recorder.finished)
      && SameSettings(r, s.recorder)
      && (Valid(r) ==> Valid(s.recorder))
    decreases |calls|
  {
    if |calls| > 0 {
      var s := Apply(r, calls[0]);
      if s.result.Success? {
        RunInvariants(s.recorder, calls[1..]);
        var fs, fs', fs'' := r.finished, s.recorder.finished, Run(s.recorder, calls[1..]).recorder.finished;
        assert fs'[..|fs|] == fs;
        assert fs''[..|fs'|] == fs';
        assert fs''[..|fs|] == fs''[..|fs'|][..|fs|];
      }
    }
  }

  // ----- Durations under a monotone clock -----

  /** Every pending timing started no later than clock reading `t`. */
  ghost predicate StartedBy(r: Recorder, t: real) {
    forall k :: Lookup(r, k).Some? ==> Lookup(r, k).value.startedAt <= t
  }

  predicate NonNegative(fs: seq<FinishedTiming>) {
    forall i :: 0 <= i < |fs| ==> fs[i].durationMs >= 0.0
  }

  /** The clock readings of the calls never go back, starting from `t`. */
  predicate ClockMonotone(calls: seq<Call>, t: real)
    decreases |calls|
  {
    |calls| == 0 ||
    match calls[0]
    case StartCall(_, _, at) => t <= at && ClockMonotone(calls[1..], at)
    case EndCall(_, at) => t <= at && ClockMonotone(calls[1..], at)
    case AddCall(_, _, _) => ClockMonotone(calls[1..], t)
  }

  /** Every `add` is given a non-negative duration. */
  predicate AddsNonNegative(calls: seq<Call>) {
    forall i :: 0 <= i < |calls| && calls[i].AddCall? ==> calls[i].durationMs >= 0.0
  }

  /** One call keeps the durations non-negative and moves the clock forward. */
  lemma ApplyNonNegative(r: Recorder, c: Call, t: real, t': real)
    requires StartedBy(r, t) && NonNegative(r.finished)
    requires c.AddCall? ==> c.durationMs >= 0.0 && t' == t
    requires !c.AddCall? ==> t <= c.at && t' == c.at
    ensures Apply(r, c).result.Success? ==>
      StartedBy(Apply(r, c).recorder, t') && NonNegative(Apply(r, c).recorder.finished)
  {
    var r' := Apply(r, c).recorder;
    forall k | Lookup(r', k).Some?
      ensures Lookup(r', k).value.startedAt <= t'
    {
      if c.StartCall? && k == c.name {
      } else {
        assert Lookup(r', k) == Lookup(r, k);
      }
    }
  }

  /** Under a clock that never goes back, and with non-negative durations
      given to `add`, every finished timing has a non-negative duration. */
  lemma {:induction false} RunNonNegative(r: Recorder, calls: seq<Call>, t: real)
    requires StartedBy(r, t) && NonNegative(r.finished)
    requires ClockMonotone(calls, t) && AddsNonNegative(calls)
    ensures NonNegative(Run(r, calls).recorder.finished)
    decreases |calls|
  {
    if |calls| > 0 {
      var c := calls[0];
      var t' := if c.AddCall? then t else c.at;
      assert c.AddCall? ==> c.durationMs >= 0.0 by {
        if c.AddCall? {
          assert calls[0].AddCall?;
        }
      }
      ApplyNonNegative(r, c, t, t');
      var s := Apply(r, c);
      if s.result.Success? {
        assert AddsNonNegative(calls[1..]) by {
          forall i | 0 <= i < |calls[1..]| && calls[1..][i].AddCall?
            ensures calls[1..][i].durationMs >= 0.0
          {
            assert calls[1..][i] == calls[i + 1];
          }
        }
        RunNonNegative(s.recorder, calls[1..], t');
      }
    }
  }

  /** A clock that never goes back. */
  ghost predicate MonotoneClock(clock: nat -> real) {
    forall i: nat, j: nat :: i <= j ==> clock(i) <= clock(j)
  }

  /** Auto-ending with a clock that never goes back and starts no earlier
      than any pending start gives non-negative durations. */
  lemma AutoEndNonNegative(r: Recorder, clock: nat -> real)
    requires Valid(r) && StartedBy(r, clock(0)) && MonotoneClock(clock)
    ensures NonNegative(AutoEnded(r.pending, clock))
  {
    var done := AutoEnded(r.pending, clock);
    forall k | 0 <= k < |done|
      ensures done[k].durationMs >= 0.0
    {
      OrderedMap.GetAt(r.pending, k);
      assert Lookup(r, r.pending[k].0) == Some(r.pending[k].1);
      assert clock(0) <= clock(k);
    }
  }

  // ----- Starting and ending the same name repeatedly -----

  /** A handler that calls `start(name)` then `end(name)` once per span, the
      span giving the two clock readings; an exception ends the loop. */
  function StartEndLoop(r: Recorder, name: string, description: Option<string>, spans: seq<(real, real)>)
    : Step<(), Error>
    decreases |spans|
  {
    if |spans| == 0 then Step(r, Success(()))
    else
      var s := End(Start(r, name, description, spans[0].0), name, spans[0].1);
      if s.result.Failure? then s else StartEndLoop(s.recorder, name, description, spans[1..])
  }

  /** The finished timings N start/end pairs of `name` are meant to leave:
      one per pair, in order, each spanning its pair's two clock readings. */
  function PairTimings(name: string, description: Option<string>, spans: seq<(real, real)>): (done: seq<FinishedTiming>)
    ensures |done| == |spans|
    ensures forall i :: 0 <= i < |spans| ==>
      done[i] == FinishedTiming(name, spans[i].1 - spans[i].0, description)
    decreases |spans|
  {
    if |spans| == 0 then []
    else [FinishedTiming(name, spans[0].1 - spans[0].0, description)] + PairTimings(name, description, spans[1..])
  }

  /** Starting a name that is not pending and then ending it leaves the
      pending map as it was. */
  lemma RestartRestores(r: Recorder, name: string, description: Option<string>, startedAt: real)
    requires Lookup(r, name).None?
    ensures OrderedMap.Delete(Start(r, name, description, startedAt).pending, name) == r.pending
  {
    assert Start(r, name, description, startedAt).pending
           == OrderedMap.Set(r.pending, name, PendingTiming(startedAt, description));
    OrderedMap.DeleteUndoesNewSet(r.pending, name, PendingTiming(startedAt, description));
  }

  /** One start/end pair of a name not pending succeeds, leaves one more
      finished timing and the pending map as it was. */
  lemma StartEndRestores(r: Recorder, name: string, description: Option<string>, startedAt: real, endedAt: real)
    requires Lookup(r, name).None?
    ensures End(Start(r, name, description, startedAt), name, endedAt)
            == Step(r.(finished := r.finished + [FinishedTiming(name, endedAt - startedAt, description)]), Success(()))
  {
    EndAfterStart(r, name, description, startedAt, endedAt);
    RestartRestores(r, name, description, startedAt);
  }

  lemma AppendCons<T>(a: seq<T>, x: T, b: seq<T>)
    ensures (a + [x]) + b == a + ([x] + b)
  {
  }

  /** Each start/end pair leaves its own finished timing: N pairs give N
      entries named `name`, in order, none merged, and the pending map is
      back to what it was. */
  lemma {:induction false} RepeatedStartEnd(r: Recorder, name: string, description: Option<string>,
                                            spans: seq<(real, real)>)
    requires Lookup(r, name).None?
    ensures StartEndLoop(r, name, description, spans)
            == Step(r.(finished := r.finished + PairTimings(name, description, spans)), Success(()))
    decreases |spans|
  {
    if |spans| == 0 {
      assert r.finished + [] == r.finished;
    } else {
      var first := FinishedTiming(name, spans[0].1 - spans[0].0, description);
      var ended := r.(finished := r.finished + [first]);
      StartEndRestores(r, name, description, spans[0].0, spans[0].1);
      RepeatedStartEnd(ended, name, description, spans[1..]);
      assert PairTimings(name, description, spans) == [first] + PairTimings(name, description, spans[1..]);
      AppendCons(r.finished, first, PairTimings(name, description, spans[1..]));
    }
  }

  /** When every finished timing carries `name`, every rendered metric
      begins with `name` and ";dur=", and reads back as `name` when it has
      no ';'. */
  lemma TokensOfOneName(finished: seq<FinishedTiming>, precision: int, name: string)
    requires 0 <= precision <= 100
    requires forall i :: 0 <= i < |finished| ==> finished[i].name == name
    ensures Tokens(finished, precision).Some?
    ensures var tokens := Tokens(finished, precision).value;
      && |tokens| == |finished|
      && (forall i :: 0 <= i < |tokens| ==> IsPrefix(name + ";dur=", tokens[i]))
      && (';' !in name ==> forall i :: 0 <= i < |tokens| ==>
            HeaderFormat.ParseToken(tokens[i]).Some? && HeaderFormat.ParseToken(tokens[i]).value.name == name)
  {
    var tokens := Tokens(finished, precision).value;
    forall i | 0 <= i < |tokens|
      ensures IsPrefix(name + ";dur=", tokens[i])
      ensures ';' !in name ==>
        HeaderFormat.ParseToken(tokens[i]).Some? && HeaderFormat.ParseToken(tokens[i]).value.name == name
    {
      HeaderProperties.MetricStartsWithName(finished, precision, name, i);
      if ';' !in name {
        HeaderProperties.MetricNamed(finished, precision, name, i);
      }
    }
  }

  /** Once nothing is pending and every finished timing carries `name`, the
      header holds one metric per finished timing, each beginning with
      `name` and ";dur=" and reading back as `name` when it has no ';'. */
  lemma HeaderOfOneName(rec: Recorder, name: string, clock: nat -> real)
    requires rec.pending == [] && 0 <= rec.precision <= 100
    requires forall i :: 0 <= i < |rec.finished| ==> rec.finished[i].name == name
    ensures Tokens(rec.finished, rec.precision).Some?
    ensures var s := GetHeaders(rec, clock);
      var tokens := Tokens(rec.finished, rec.precision).value;
      && s.result.Success?
      && s.result.value.serverTiming == JoinWith(tokens, ", ")
      && |tokens| == |rec.finished|
      && (forall i :: 0 <= i < |tokens| ==> IsPrefix(name + ";dur=", tokens[i]))
      && (';' !in name ==> forall i :: 0 <= i < |tokens| ==>
            HeaderFormat.ParseToken(tokens[i]).Some? && HeaderFormat.ParseToken(tokens[i]).value.name == name)
  {
    var s := GetHeaders(rec, clock);
    assert Valid(rec);
    assert s.recorder.finished == rec.finished by {
      if rec.autoEnd {
        assert AutoEnded(rec.pending, clock) == [];
        assert rec.finished + [] == rec.finished;
      }
    }
    TokensOfOneName(rec.finished, rec.precision, name);
  }

  /** After N start/end pairs of one name on a fresh recorder, nothing is
      pending and the N finished timings all carry that name. */
  lemma RepeatedStartEndFresh(options: Options, name: string, description: Option<string>,
                              spans: seq<(real, real)>)
    ensures var rec := StartEndLoop(New(options), name, description, spans).recorder;
      && rec.pending == []
      && |rec.finished| == |spans|
      && (forall i :: 0 <= i < |rec.finished| ==> rec.finished[i].name == name)
      && SameSettings(New(options), rec)
  {
    var r := New(options);
    RepeatedStartEnd(r, name, description, spans);
    var rec := StartEndLoop(r, name, description, spans).recorder;
    assert rec.finished == PairTimings(name, description, spans);
  }

  /** On a fresh recorder, N start/end pairs of one name put exactly N
      metrics in the header, each beginning with that name and ";dur=" and
      reading back as that name when it has no ';'. */
  lemma RepeatedStartEndHeader(options: Options, name: string, description: Option<string>,
                               spans: seq<(real, real)>, clock: nat -> real)
    requires options.precision.Some? ==> 0 <= options.precision.value <= 100
    ensures var rec := StartEndLoop(New(options), name, description, spans).recorder;
      Tokens(rec.finished, rec.precision).Some?
    ensures var rec := StartEndLoop(New(options), name, description, spans).recorder;
      var s := GetHeaders(rec, clock);
      var tokens := Tokens(rec.finished, rec.precision).value;
      && s.result.Success?
      && s.result.value.serverTiming == JoinWith(tokens, ", ")
      && |tokens| == |spans|
      && (forall i :: 0 <= i < |tokens| ==> IsPrefix(name + ";dur=", tokens[i]))
      && (';' !in name ==> forall i :: 0 <= i < |tokens| ==>
            HeaderFormat.ParseToken(tokens[i]).Some? && HeaderFormat.ParseToken(tokens[i]).value.name == name)
  {
    RepeatedStartEndFresh(options, name, description, spans);
    var rec := StartEndLoop(New(options), name, description, spans).recorder;
    HeaderOfOneName(rec, name, clock);
  }
}
