/** The per-request timing recorder (`ServerTiming` in src/index.ts): a
    pending map from name to start record, an append-only list of finished
    timings, and the rendering of that list as `Server-Timing` header value.

    The host clock is not modelled: every operation that reads it takes the
    reading as a parameter, in milliseconds. */
module ServerTiming {
  import opened Wrappers
  import opened Strings
  import Decimal
  import OrderedMap
  import HeaderFormat

  /** Constructor options; `None` is an option left undefined. */
  datatype Options = Options(autoEnd: Option<bool>, precision: Option<int>, allowOrigin: Option<string>)

  /** `new ServerTiming()` with no options. */
  const DefaultOptions := Options(None, None, None)

  /** With no options: nothing recorded, no auto-end, precision 2, no
      `Timing-Allow-Origin`. */
  lemma NewWithDefaults()
    ensures New(DefaultOptions) == Recorder([], [], false, 2, None)
  {
  }

  datatype FinishedTiming = FinishedTiming(name: string, durationMs: real, description: Option<string>)

  datatype PendingTiming = PendingTiming(startedAt: real, description: Option<string>)

  datatype Recorder = Recorder(
    finished: seq<FinishedTiming>,
    pending: OrderedMap.Entries<PendingTiming>,
    autoEnd: bool,
    precision: int,
    allowOrigin: Option<string>)

  /** Exceptions the recorder throws: `end` of a name that is not pending,
      and the RangeError of `toFixed` for a precision outside 0..100. */
  datatype Error = NoPendingTask(name: string) | RangeError(fractionDigits: int)
  {
    /** The exception's message. The RangeError text is the host engine's,
        not the library's; V8's wording is used. */
    function Message(): (msg: string)
      ensures NoPendingTask? ==> Contains(msg, "no pending task") && Contains(msg, name)
    {
      match this
      case NoPendingTask(n) => NoPendingTaskMessage(n)
      case RangeError(_) => "toFixed() digits argument must be between 0 and 100"
    }
  }

  /** The state after an operation together with its return value or exception. */
  datatype Step<T, E> = Step(recorder: Recorder, result: Result<T, E>)

  /** The header object `getHeaders` returns; `None` is an absent key. */
  datatype Headers = Headers(serverTiming: string, timingAllowOrigin: Option<string>)

  /** A JavaScript `Map` never holds a key twice. */
  predicate Valid(r: Recorder) {
    OrderedMap.DistinctKeys(r.pending)
  }

  /** The configuration fixed at construction did not change. */
  predicate SameSettings(r: Recorder, r': Recorder) {
    r'.autoEnd == r.autoEnd && r'.precision == r.precision && r'.allowOrigin == r.allowOrigin
  }

  function Lookup(r: Recorder, name: string): Option<PendingTiming> {
    OrderedMap.Get(r.pending, name)
  }

  /** The constructor: `autoEnd` defaults to false, `precision` to 2, and
      `allowOrigin` stays unset unless given. */
  function New(options: Options): (r: Recorder)
    ensures r.finished == [] && r.pending == [] && Valid(r)
    ensures r.autoEnd <==> options.autoEnd == Some(true)
    ensures options.precision.None? ==> r.precision == 2
    ensures options.precision.Some? ==> r.precision == options.precision.value
    ensures r.allowOrigin == options.allowOrigin
  {
    Recorder([], [], options.autoEnd.GetOr(false), options.precision.GetOr(2), options.allowOrigin)
  }

  /** `start(name, description)` at clock reading `now`: records a pending
      timing for `name`, silently replacing an earlier one for the same name;
      nothing else changes. */
  function Start(r: Recorder, name: string, description: Option<string>, now: real): (r': Recorder)
    ensures r'.finished == r.finished && SameSettings(r, r')
    ensures Lookup(r', name) == Some(PendingTiming(now, description))
    ensures forall k :: k != name ==> Lookup(r', k) == Lookup(r, k)
    ensures OrderedMap.Keys(r'.pending)
            == if name in OrderedMap.Keys(r.pending) then OrderedMap.Keys(r.pending)
               else OrderedMap.Keys(r.pending) + [name]
    ensures Valid(r) ==> Valid(r')
  {
    var p := PendingTiming(now, description);
    OrderedMap.SetKeys(r.pending, name, p);
    assert Valid(r) ==> OrderedMap.DistinctKeys(OrderedMap.Set(r.pending, name, p)) by {
      if Valid(r) {
        OrderedMap.SetKeepsDistinct(r.pending, name, p);
      }
    }
    r.(pending := OrderedMap.Set(r.pending, name, p))
  }

  /** `add(name, durationMs, description)`: appends one finished timing, with
      no check on the duration. */
  function Add(r: Recorder, name: string, durationMs: real, description: Option<string>): (r': Recorder)
    ensures |r'.finished| == |r.finished| + 1
    ensures r'.finished[..|r.finished|] == r.finished
    ensures r'.finished[|r.finished|] == FinishedTiming(name, durationMs, description)
    ensures r'.pending == r.pending && SameSettings(r, r')
  {
    r.(finished := r.finished + [FinishedTiming(name, durationMs, description)])
  }

  /** `end(name)` at clock reading `now`. Without a pending timing for `name`
      it throws and changes nothing; otherwise it removes exactly that
      pending timing and appends one finished timing carrying the elapsed
      time and the description given to `start`. */
  function End(r: Recorder, name: string, now: real): (s: Step<(), Error>)
    ensures Lookup(r, name).None? ==> s == Step(r, Failure(NoPendingTask(name)))
    ensures Lookup(r, name).Some? ==>
      var p := Lookup(r, name).value;
      && s.result.Success?
      && s.recorder.finished == r.finished + [FinishedTiming(name, now - p.startedAt, p.description)]
      && s.recorder.pending == OrderedMap.Delete(r.pending, name)
      && (p.startedAt <= now ==> s.recorder.finished[|r.finished|].durationMs >= 0.0)
      && Lookup(s.recorder, name).None?
      && (forall k :: k != name ==> Lookup(s.recorder, k) == Lookup(r, k))
      && (forall k :: k in OrderedMap.Keys(s.recorder.pending) <==> k in OrderedMap.Keys(r.pending) && k != name)
      && SameSettings(r, s.recorder)
      && (Valid(r) ==> Valid(s.recorder))
  {
    match Lookup(r, name)
    case None => Step(r, Failure(NoPendingTask(name)))
    case Some(p) =>
      OrderedMap.DeleteKeys(r.pending, name);
      var r1 := r.(pending := OrderedMap.Delete(r.pending, name));
      assert Valid(r) ==> Valid(r1) by {
        if Valid(r) {
          OrderedMap.DeleteKeepsDistinct(r.pending, name);
        }
      }
      Step(Add(r1, name, now - p.startedAt, p.description), Success(()))
  }

  /** The message of the error `end` throws names the missing task. */
  function NoPendingTaskMessage(name: string): (msg: string)
    ensures Contains(msg, "no pending task")
    ensures Contains(msg, name)
  {
    var head := "end() was called but there is ";
    var msg := head + "no pending task '" + name + "'";
    assert "no pending task '" == "no pending task" + " '";
    assert msg == head + "no pending task" + (" '" + name + "'");
    ContainsMiddle(head, "no pending task", " '" + name + "'");
    ContainsMiddle(head + "no pending task '", name, "'");
    msg
  }

  /** What `time` re-throws: the callback's exception, or the one from `end`. */
  datatype Thrown<E> = FromEnd(error: Error) | FromCallback(exception: E)

  /** The second half of `time`: after the callback returned `called`,
      rethrow its exception untouched, or run `end` at `endedAt` and hand
      back the callback's value unless `end` throws. */
  function AfterCallback<T, E>(called: Step<T, E>, name: string, endedAt: real): (s: Step<T, Thrown<E>>)
    ensures called.result.Failure? ==> s == Step(called.recorder, Failure(FromCallback(called.result.error)))
    ensures called.result.Success? && Lookup(called.recorder, name).None? ==>
      s == Step(called.recorder, Failure(FromEnd(NoPendingTask(name))))
    ensures called.result.Success? && Lookup(called.recorder, name).Some? ==>
      var p := Lookup(called.recorder, name).value;
      && s.result == Success(called.result.value)
      && s.recorder.finished
         == called.recorder.finished + [FinishedTiming(name, endedAt - p.startedAt, p.description)]
      && s.recorder.pending == OrderedMap.Delete(called.recorder.pending, name)
      && SameSettings(called.recorder, s.recorder)
  {
    match called.result
    case Failure(e) => Step(called.recorder, Failure(FromCallback(e)))
    case Success(v) =>
      var ended := End(called.recorder, name, endedAt);
      match ended.result
      case Failure(err) => Step(ended.recorder, Failure(FromEnd(err)))
      case Success(_) => Step(ended.recorder, Success(v))
  }

  /** `time(name, fn, description)`: `start`, then the callback `fn` (which
      may use the recorder and may throw), then `end`, returning what `fn`
      returned. The clock reads `startedAt` at `start` and `endedAt` at
      `end`. There is no `finally`: when `fn` throws, `end` does not run. */
  function Time<T, E>(r: Recorder, name: string, description: Option<string>, startedAt: real,
                      fn: Recorder -> Step<T, E>, endedAt: real): (s: Step<T, Thrown<E>>)
    ensures var called := fn(Start(r, name, description, startedAt));
      called.result.Failure? ==> s == Step(called.recorder, Failure(FromCallback(called.result.error)))
    ensures var called := fn(Start(r, name, description, startedAt));
      called.result.Success? && Lookup(called.recorder, name).None? ==>
        s == Step(called.recorder, Failure(FromEnd(NoPendingTask(name))))
    ensures var called := fn(Start(r, name, description, startedAt));
      called.result.Success? && Lookup(called.recorder, name).Some? ==>
        var p := Lookup(called.recorder, name).value;
        && s.result == Success(called.result.value)
        && s.recorder.finished
           == called.recorder.finished + [FinishedTiming(name, endedAt - p.startedAt, p.description)]
        && s.recorder.pending == OrderedMap.Delete(called.recorder.pending, name)
        && SameSettings(called.recorder, s.recorder)
  {
    AfterCallback(fn(Start(r, name, description, startedAt)), name, endedAt)
  }

  /** `end` right after `start` of the same name always succeeds: it removes
      the record just made and finishes a timing spanning the two readings. */
  lemma EndAfterStart(r: Recorder, name: string, description: Option<string>, startedAt: real, endedAt: real)
    ensures var started := Start(r, name, description, startedAt);
      End(started, name, endedAt)
      == Step(r.(pending := OrderedMap.Delete(started.pending, name),
                 finished := r.finished + [FinishedTiming(name, endedAt - startedAt, description)]),
              Success(()))
  {
    var started := Start(r, name, description, startedAt);
    assert Lookup(started, name) == Some(PendingTiming(startedAt, description));
  }

  /** When the callback returns without touching the recorder, `time` is
      `start` then `end`: one finished timing spanning the two clock
      readings, and no pending timing left for `name`. */
  lemma TimeOfPlainCallback<T, E>(r: Recorder, name: string, description: Option<string>, startedAt: real,
                                  fn: Recorder -> Step<T, E>, endedAt: real)
    requires fn(Start(r, name, description, startedAt)).recorder == Start(r, name, description, startedAt)
    requires fn(Start(r, name, description, startedAt)).result.Success?
    ensures var s := Time(r, name, description, startedAt, fn, endedAt);
      && s.result == Success(fn(Start(r, name, description, startedAt)).result.value)
      && s.recorder.finished == r.finished + [FinishedTiming(name, endedAt - startedAt, description)]
      && Lookup(s.recorder, name).None?
      && (forall k :: k != name ==> Lookup(s.recorder, k) == Lookup(r, k))
  {
    var started := Start(r, name, description, startedAt);
    EndAfterStart(r, name, description, startedAt, endedAt);
    var ended := End(started, name, endedAt);
    var s := Time(r, name, description, startedAt, fn, endedAt);
    assert s == Step(ended.recorder, Success(fn(started).result.value));
    forall k | k != name
      ensures Lookup(s.recorder, k) == Lookup(r, k)
    {
      assert Lookup(s.recorder, k) == Lookup(started, k);
    }
  }

  /** When the callback throws without touching the recorder, the timing
      stays pending: nothing closes it. */
  lemma TimeOfThrowingCallback<T, E>(r: Recorder, name: string, description: Option<string>, startedAt: real,
                                     fn: Recorder -> Step<T, E>, endedAt: real)
    requires fn(Start(r, name, description, startedAt)).recorder == Start(r, name, description, startedAt)
    requires fn(Start(r, name, description, startedAt)).result.Failure?
    ensures var s := Time(r, name, description, startedAt, fn, endedAt);
      && s.result == Failure(FromCallback(fn(Start(r, name, description, startedAt)).result.error))
      && s.recorder.finished == r.finished
      && Lookup(s.recorder, name) == Some(PendingTiming(startedAt, description))
  {
  }

  // ----- Auto-end -----

  /** The timings auto-end produces from a pending map, in map order: the
      `k`-th pending name is ended at clock reading `clock(k)`. */
  function AutoEnded(pending: OrderedMap.Entries<PendingTiming>, clock: nat -> real): (done: seq<FinishedTiming>)
  {
    seq(|pending|, k requires 0 <= k < |pending| =>
      FinishedTiming(pending[k].0, clock(k) - pending[k].1.startedAt, pending[k].1.description))
  }

  /** `for (const name of names) this.end(name)` from position `i` on, the
      `i`-th call reading `clock(i)`; the first exception stops the loop. */
  function EndEach(r: Recorder, names: seq<string>, clock: nat -> real, i: nat): (s: Step<(), Error>)
    ensures SameSettings(r, s.recorder)
    ensures |s.recorder.finished| >= |r.finished| && s.recorder.finished[..|r.finished|] == r.finished
    ensures s.result.Failure? ==> s.result.error.NoPendingTask?
    decreases |names| - i
  {
    if |names| <= i then Step(r, Success(()))
    else
      var ended := End(r, names[i], clock(i));
      if ended.result.Failure? then ended
      else EndEach(ended.recorder, names, clock, i + 1)
  }

  /** Ending the first pending name: it is found, and the rest of the map
      is what stays pending. */
  lemma EndFirstPending(r: Recorder, all: OrderedMap.Entries<PendingTiming>, clock: nat -> real, i: nat)
    requires OrderedMap.DistinctKeys(all) && i < |all| && r.pending == all[i..]
    ensures End(r, OrderedMap.Keys(all)[i], clock(i))
            == Step(r.(pending := all[i + 1..], finished := r.finished + [AutoEnded(all, clock)[i]]), Success(()))
  {
    var rest := all[i..];
    assert rest[0] == all[i];
    assert OrderedMap.DistinctKeys(rest);
    OrderedMap.GetAt(rest, 0);
    OrderedMap.DeleteFirst(rest);
    assert rest[1..] == all[i + 1..];
  }

  lemma AppendFirstOfRest<T>(a: seq<T>, s: seq<T>, i: nat)
    requires i < |s|
    ensures (a + [s[i]]) + s[i + 1..] == a + s[i..]
  {
    assert s[i..] == [s[i]] + s[i + 1..];
  }

  /** Ending the pending timings in map order always finds each of them:
      the name ended is always the first one left, so ending it leaves the
      rest of the map. */
  lemma {:induction false} EndEachClosesInOrder(r: Recorder, all: OrderedMap.Entries<PendingTiming>,
                                                clock: nat -> real, i: nat)
    requires OrderedMap.DistinctKeys(all) && i <= |all| && r.pending == all[i..]
    ensures var s := EndEach(r, OrderedMap.Keys(all), clock, i);
      && s.result.Success?
      && s.recorder.pending == []
      && s.recorder.finished == r.finished + AutoEnded(all, clock)[i..]
      && SameSettings(r, s.recorder)
    decreases |all| - i
  {
    if i < |all| {
      var names := OrderedMap.Keys(all);
      var done := AutoEnded(all, clock);
      var next := r.(pending := all[i + 1..], finished := r.finished + [done[i]]);
      assert EndEach(r, names, clock, i) == EndEach(next, names, clock, i + 1) by {
        EndFirstPending(r, all, clock, i);
      }
      EndEachClosesInOrder(next, all, clock, i + 1);
      AppendFirstOfRest(r.finished, done, i);
    }
  }

  /** The auto-end loop of `getHeaders`. JavaScript's `Map` iterator keeps
      visiting the remaining keys when the current one is deleted, and the
      loop deletes nothing else, so it visits the keys present at its start,
      in order. */
  function AutoEnd(r: Recorder, clock: nat -> real): (s: Step<(), Error>)
    ensures SameSettings(r, s.recorder)
    ensures Valid(r) ==>
      && s.result.Success?
      && s.recorder.pending == []
      && s.recorder.finished == r.finished + AutoEnded(r.pending, clock)
  {
    var s := EndEach(r, OrderedMap.Keys(r.pending), clock, 0);
    assert Valid(r) ==> s.result.Success? && s.recorder.pending == []
                        && s.recorder.finished == r.finished + AutoEnded(r.pending, clock) by {
      if Valid(r) {
        assert r.pending[0..] == r.pending;
        EndEachClosesInOrder(r, r.pending, clock, 0);
      }
    }
    s
  }

  // ----- Rendering -----

  /** The rendered metrics of the finished timings, one per timing in order;
      `None` is the RangeError `toFixed` throws for a precision outside 0..100
      (never thrown when there is nothing to format). */
  function Tokens(finished: seq<FinishedTiming>, precision: int): (r: Option<seq<string>>)
    ensures r.Some? <==> |finished| == 0 || 0 <= precision <= 100
    ensures r.Some? ==> |r.value| == |finished|
    ensures r.Some? ==> forall i :: 0 <= i < |finished| ==>
      r.value[i] == HeaderFormat.Token(finished[i].name,
                                      Decimal.ToFixed(finished[i].durationMs, precision).value,
                                      finished[i].description)
  {
    if |finished| == 0 then Some([])
    else
      var t := finished[0];
      match Decimal.ToFixed(t.durationMs, precision)
      case None => None
      case Some(dur) =>
        match Tokens(finished[1..], precision)
        case None => None
        case Some(rest) => Some([HeaderFormat.Token(t.name, dur, t.description)] + rest)
  }

  /** The `Server-Timing` value: the metrics joined with ", ". */
  function ServerTimingValue(finished: seq<FinishedTiming>, precision: int): (r: Option<string>)
    ensures r.Some? <==> |finished| == 0 || 0 <= precision <= 100
    ensures |finished| == 0 ==> r == Some("")
  {
    match Tokens(finished, precision)
    case None => None
    case Some(tokens) => Some(JoinWith(tokens, ", "))
  }

  /** `getHeaders()`: with `autoEnd`, first ends every pending timing (the
      `k`-th at clock reading `clock(k)`); then renders every finished
      timing. `Timing-Allow-Origin` is present exactly when `allowOrigin` is
      a non-empty string. Without `autoEnd` the state is untouched. */
  function GetHeaders(r: Recorder, clock: nat -> real): (s: Step<Headers, Error>)
    ensures !r.autoEnd ==> s.recorder == r
    ensures r.autoEnd && Valid(r) ==>
      s.recorder.pending == [] && s.recorder.finished == r.finished + AutoEnded(r.pending, clock)
    ensures SameSettings(r, s.recorder)
    ensures Valid(r) ==>
      (s.result.Success? <==> |s.recorder.finished| == 0 || 0 <= r.precision <= 100)
    ensures Valid(r) && s.result.Failure? ==> s.result.error == RangeError(r.precision)
    ensures s.result.Success? ==>
      var h := s.result.value;
      && Some(h.serverTiming) == ServerTimingValue(s.recorder.finished, r.precision)
      && (h.timingAllowOrigin.Some? <==> HeaderFormat.IsNonEmpty(r.allowOrigin))
      && (h.timingAllowOrigin.Some? ==> h.timingAllowOrigin == r.allowOrigin)
  {
    var ended := if r.autoEnd then AutoEnd(r, clock) else Step(r, Success(()));
    var rec := ended.recorder;
    if ended.result.Failure? then Step(rec, Failure(ended.result.error))
    else
      match ServerTimingValue(rec.finished, rec.precision)
      case None => Step(rec, Failure(RangeError(rec.precision)))
      case Some(value) =>
        var origin := if HeaderFormat.IsNonEmpty(rec.allowOrigin) then rec.allowOrigin else None;
        Step(rec, Success(Headers(value, origin)))
  }
}
