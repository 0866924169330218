/** What the rendered `Server-Timing` value says about the recorder. */
module HeaderProperties {
  import opened Wrappers
  import opened Strings
  import Decimal
  import HeaderFormat
  import opened ServerTiming

  /** A finished timing's metric: its name, ";dur=", the duration with
      `precision` fraction digits, and the description parameter. */
  lemma TokenOfTiming(finished: seq<FinishedTiming>, precision: int, i: nat)
    requires 0 <= precision <= 100 && i < |finished|
    ensures Tokens(finished, precision).Some?
    ensures var t := finished[i];
      Tokens(finished, precision).value[i]
      == t.name + ";dur=" + Decimal.ToFixed(t.durationMs, precision).value + HeaderFormat.DescParam(t.description)
  {
    var t := finished[i];
  }

  /** Each metric reads back as the timing's name, a duration in fixed
      notation with exactly `precision` fraction digits that is the decimal
      nearest the timing's duration, and its non-empty description — for
      names without ';'. */
  lemma MetricReadsBack(finished: seq<FinishedTiming>, precision: nat, i: nat)
    requires precision <= 100 && i < |finished|
    requires ';' !in finished[i].name
    ensures Tokens(finished, precision).Some?
    ensures var t := finished[i];
      var parsed := HeaderFormat.ParseToken(Tokens(finished, precision).value[i]);
      && parsed.Some?
      && parsed.value.name == t.name
      && parsed.value.description == (if HeaderFormat.IsNonEmpty(t.description) then t.description else None)
      && Decimal.IsFixedNotation(parsed.value.dur, precision)
      && (Decimal.SignLength(parsed.value.dur) == 1 <==> t.durationMs < 0.0)
      && (Decimal.ScaledMagnitude(parsed.value.dur, precision) as real) - 0.5
         <= Decimal.Shift(Decimal.Abs(t.durationMs), precision)
      && Decimal.Shift(Decimal.Abs(t.durationMs), precision)
         < (Decimal.ScaledMagnitude(parsed.value.dur, precision) as real) + 0.5
  {
    var t := finished[i];
    Decimal.ToFixedIsNearestDecimal(t.durationMs, precision);
    var dur := Decimal.ToFixed(t.durationMs, precision).value;
    Decimal.FixedNotationChars(dur, precision);
    forall k | 0 <= k < |dur|
      ensures dur[k] != ';'
    {
      assert Decimal.FixedChar(dur[k]);
    }
    HeaderFormat.ParseTokenRoundTrip(t.name, dur, t.description);
    assert Tokens(finished, precision).value[i] == HeaderFormat.Token(t.name, dur, t.description);
  }

  /** A metric mentions its name followed by ";dur=", and its non-empty
      description as `desc="<description>"`. */
  lemma MetricMentions(name: string, dur: string, description: Option<string>)
    ensures Contains(HeaderFormat.Token(name, dur, description), name + ";dur=")
    ensures HeaderFormat.IsNonEmpty(description) ==>
      Contains(HeaderFormat.Token(name, dur, description), "desc=\"" + description.value + "\"")
  {
    var token := HeaderFormat.Token(name, dur, description);
    var desc := HeaderFormat.DescParam(description);
    assert token == "" + (name + ";dur=") + (dur + desc);
    ContainsMiddle("", name + ";dur=", dur + desc);
    if HeaderFormat.IsNonEmpty(description) {
      var param := "desc=\"" + description.value + "\"";
      assert token == (name + ";dur=" + dur + ";") + param + "";
      ContainsMiddle(name + ";dur=" + dur + ";", param, "");
    }
  }

  /** The value lists every finished timing: its name followed by ";dur=",
      and `desc="<description>"` verbatim when the description is non-empty. */
  lemma ValueListsEveryTiming(finished: seq<FinishedTiming>, precision: int, i: nat)
    requires ServerTimingValue(finished, precision).Some? && i < |finished|
    ensures var value := ServerTimingValue(finished, precision).value;
      && Contains(value, finished[i].name + ";dur=")
      && (HeaderFormat.IsNonEmpty(finished[i].description) ==>
            Contains(value, "desc=\"" + finished[i].description.value + "\""))
  {
    var t := finished[i];
    var tokens := Tokens(finished, precision).value;
    var value := JoinWith(tokens, ", ");
    var dur := Decimal.ToFixed(t.durationMs, precision).value;
    assert tokens[i] == HeaderFormat.Token(t.name, dur, t.description);
    JoinContainsPart(tokens, i, ", ");
    MetricMentions(t.name, dur, t.description);
    ContainsTransitive(value, tokens[i], t.name + ";dur=");
    if HeaderFormat.IsNonEmpty(t.description) {
      ContainsTransitive(value, tokens[i], "desc=\"" + t.description.value + "\"");
    }
  }

  /** Finishing one more timing extends the value by ", " and its metric
      (or makes it that metric when nothing was finished before). */
  lemma ValueAfterAppend(finished: seq<FinishedTiming>, t: FinishedTiming, precision: int)
    requires 0 <= precision <= 100
    ensures ServerTimingValue(finished, precision).Some?
    ensures var token := HeaderFormat.Token(t.name, Decimal.ToFixed(t.durationMs, precision).value, t.description);
      ServerTimingValue(finished + [t], precision).value
      == if |finished| == 0 then token else ServerTimingValue(finished, precision).value + ", " + token
  {
    var token := HeaderFormat.Token(t.name, Decimal.ToFixed(t.durationMs, precision).value, t.description);
    var before := Tokens(finished, precision).value;
    var after := Tokens(finished + [t], precision).value;
    assert after == before + [token];
    JoinAppend(before, token, ", ");
  }

  /** With nothing finished and nothing to auto-end, the value is the empty
      string and the header is still there, whatever the precision. */
  lemma EmptyValue(r: Recorder, clock: nat -> real)
    requires r.finished == [] && (r.pending == [] || !r.autoEnd)
    ensures GetHeaders(r, clock).result.Success?
    ensures GetHeaders(r, clock).result.value.serverTiming == ""
  {
    var s := GetHeaders(r, clock);
    if r.autoEnd {
      assert OrderedMap.Keys(r.pending) == [];
      assert s.recorder == r;
    }
    assert Tokens([], r.precision) == Some([]);
  }

  /** A single finished timing without a description to render and with a
      non-negative duration renders at precision 0 as the name, ";dur=" and
      digits only, when nothing is left to auto-end. */
  lemma PrecisionZeroValue(r: Recorder, clock: nat -> real, name: string, durationMs: real,
                           description: Option<string>)
    requires r.finished == [FinishedTiming(name, durationMs, description)] && durationMs >= 0.0
    requires !HeaderFormat.IsNonEmpty(description)
    requires r.precision == 0 && (r.pending == [] || !r.autoEnd)
    ensures GetHeaders(r, clock).result.Success?
    ensures exists digits ::
      && GetHeaders(r, clock).result.value.serverTiming == name + ";dur=" + digits
      && |digits| >= 1 && Decimal.AllDigits(digits)
  {
    Decimal.ToFixedZeroDigitsIsInteger(durationMs);
    var digits := Decimal.ToFixed(durationMs, 0).value;
    TokenOfTiming(r.finished, 0, 0);
    assert HeaderFormat.DescParam(description) == "";
    assert name + ";dur=" + digits + "" == name + ";dur=" + digits;
    var tokens := Tokens(r.finished, 0).value;
    assert tokens == [name + ";dur=" + digits];
    assert r.autoEnd ==> AutoEnded(r.pending, clock) == [];
    assert GetHeaders(r, clock).recorder.finished == r.finished;
    assert GetHeaders(r, clock).result.value.serverTiming == name + ";dur=" + digits;
  }

  /** Calling `getHeaders` twice in a row gives the same result and the
      same state: once auto-ended, nothing is pending any more. */
  lemma GetHeadersTwice(r: Recorder, clock1: nat -> real, clock2: nat -> real)
    requires Valid(r)
    ensures var first := GetHeaders(r, clock1);
      GetHeaders(first.recorder, clock2) == first
  {
    var first := GetHeaders(r, clock1);
    var rec := first.recorder;
    if r.autoEnd {
      assert rec.pending == [];
      assert OrderedMap.Keys(rec.pending) == [];
      assert AutoEnd(rec, clock2) == Step(rec, Success(()));
    } else {
      assert rec == r;
    }
  }

  /** The `i`-th metric of a timing named `name` begins with `name` and ";dur=". */
  lemma MetricStartsWithName(finished: seq<FinishedTiming>, precision: nat, name: string, i: nat)
    requires precision <= 100 && i < |finished| && finished[i].name == name
    ensures Tokens(finished, precision).Some?
    ensures IsPrefix(name + ";dur=", Tokens(finished, precision).value[i])
  {
    var t := finished[i];
    HeaderFormat.TokenStartsWithName(name, Decimal.ToFixed(t.durationMs, precision).value, t.description);
  }

  /** The `i`-th metric of a timing named `name` reads back as `name` when
      it has no ';'. */
  lemma MetricNamed(finished: seq<FinishedTiming>, precision: nat, name: string, i: nat)
    requires precision <= 100 && i < |finished| && finished[i].name == name && ';' !in name
    ensures Tokens(finished, precision).Some?
    ensures var parsed := HeaderFormat.ParseToken(Tokens(finished, precision).value[i]);
      parsed.Some? && parsed.value.name == name
  {
    MetricReadsBack(finished, precision, i);
  }
}
