/** One metric of the `Server-Timing` header field (section 3 of the W3C
    Server Timing specification) as the recorder writes it, and a reader
    that takes such a metric apart again. */
module HeaderFormat {
  import opened Wrappers
  import opened Strings

  /** JavaScript truthiness of an optional string: present and non-empty. */
  predicate IsNonEmpty(d: Option<string>) {
    d.Some? && d.value != ""
  }

  /** The parameters of one timing: the name, `dur=<dur>` and, only for a
      non-empty description, `desc="<description>"` with the description
      copied verbatim (no escaping). */
  function Params(name: string, dur: string, description: Option<string>): seq<string> {
    [name, "dur=" + dur] + (if IsNonEmpty(description) then ["desc=\"" + description.value + "\""] else [])
  }

  /** The parameters joined with ";" read as the name, ";dur=", the
      duration, then the description parameter. */
  lemma ParamsLayout(name: string, dur: string, description: Option<string>)
    ensures JoinWith(Params(name, dur, description), ";") == name + ";dur=" + dur + DescParam(description)
  {
    if IsNonEmpty(description) {
      DescribedLayout(name, dur, description.value);
    } else {
      assert Params(name, dur, description) == [name, "dur=" + dur];
      HeadLayout(name, dur);
    }
  }

  /** The name and duration parameters joined with ";". */
  lemma HeadLayout(name: string, dur: string)
    ensures JoinWith([name, "dur=" + dur], ";") == name + ";dur=" + dur
  {
    JoinTwo(name, "dur=" + dur, ";");
    assert name + ";" + ("dur=" + dur) == name + (";" + "dur=") + dur;
  }

  /** All three parameters joined with ";". */
  lemma DescribedLayout(name: string, dur: string, description: string)
    requires description != ""
    ensures JoinWith(Params(name, dur, Some(description)), ";")
            == name + ";dur=" + dur + DescParam(Some(description))
  {
    var desc := "desc=\"" + description + "\"";
    assert Params(name, dur, Some(description)) == [name, "dur=" + dur, desc];
    assert JoinWith([name, "dur=" + dur, desc], ";") == name + ";" + ("dur=" + dur) + ";" + desc by {
      JoinThree(name, "dur=" + dur, desc, ";");
    }
    HeadLayout(name, dur);
    JoinTwo(name, "dur=" + dur, ";");
    assert DescParam(Some(description)) == ";" + desc;
  }

  /** One metric: the parameters of the timing joined with ";". */
  function Token(name: string, dur: string, description: Option<string>): (t: string)
    ensures t == name + ";dur=" + dur + DescParam(description)
  {
    ParamsLayout(name, dur, description);
    JoinWith(Params(name, dur, description), ";")
  }

  /** A metric begins with its name and ";dur=". */
  lemma TokenStartsWithName(name: string, dur: string, description: Option<string>)
    ensures IsPrefix(name + ";dur=", Token(name, dur, description))
  {
    PrefixOfConcat(name + ";dur=", dur + DescParam(description));
  }

  /** The parameter Token writes after the duration, if any. */
  function DescParam(description: Option<string>): string {
    if IsNonEmpty(description) then ";desc=\"" + description.value + "\"" else ""
  }

  /** The pieces of a metric. */
  datatype Fields = Fields(name: string, dur: string, description: Option<string>)

  /** Position of the first `c` in `s`, or `|s|` when there is none. */
  function IndexOf(s: string, c: char): (i: nat)
    ensures i <= |s|
    ensures forall j :: 0 <= j < i ==> s[j] != c
    ensures i < |s| ==> s[i] == c
  {
    if |s| == 0 then 0
    else if s[0] == c then 0
    else 1 + IndexOf(s[1..], c)
  }

  lemma IndexOfFirst(a: string, c: char, b: string)
    requires c !in a
    ensures IndexOf(a + [c] + b, c) == |a|
  {
    var s := a + [c] + b;
    assert s[|a|] == c;
    assert forall j :: 0 <= j < |a| ==> s[j] == a[j];
  }

  /** Reads a metric back: the name runs to the first ';', the duration from
      "dur=" to the next ';' (or the end), and an optional final
      `desc="..."` parameter carries a non-empty description. */
  function ParseToken(t: string): Option<Fields>
  {
    var i := IndexOf(t, ';');
    if i == |t| then None else ParseParams(t[..i], t[i + 1..])
  }

  /** The parameters after the name: "dur=" must come first. */
  function ParseParams(name: string, params: string): Option<Fields>
  {
    if IsPrefix("dur=", params) then ParseDur(name, params[4..]) else None
  }

  /** The duration, then possibly one more parameter after a ';'. */
  function ParseDur(name: string, afterDur: string): Option<Fields>
  {
    var j := IndexOf(afterDur, ';');
    if j == |afterDur| then Some(Fields(name, afterDur, None))
    else ParseDesc(name, afterDur[..j], afterDur[j + 1..])
  }

  /** A final `desc="<d>"` parameter with a non-empty `d`. */
  function ParseDesc(name: string, dur: string, param: string): Option<Fields>
  {
    if |param| > 7 && IsPrefix("desc=\"", param) && param[|param| - 1] == '"'
    then Some(Fields(name, dur, Some(param[6..|param| - 1])))
    else None
  }

  lemma ParseDescRoundTrip(name: string, dur: string, d: string)
    requires d != ""
    ensures ParseDesc(name, dur, "desc=\"" + d + "\"") == Some(Fields(name, dur, Some(d)))
  {
    var param := "desc=\"" + d + "\"";
    assert param[..6] == "desc=\"";
    assert param[6..|param| - 1] == d;
  }

  /** What follows "dur=" in a written metric reads back as the duration and
      the description when that is non-empty. */
  lemma ParseDurRoundTrip(name: string, dur: string, description: Option<string>)
    requires ';' !in dur
    ensures ParseDur(name, dur + DescParam(description))
            == Some(Fields(name, dur, if IsNonEmpty(description) then description else None))
  {
    var afterDur := dur + DescParam(description);
    if IsNonEmpty(description) {
      var param := "desc=\"" + description.value + "\"";
      assert afterDur == dur + [';'] + param;
      IndexOfFirst(dur, ';', param);
      assert afterDur[..|dur|] == dur;
      assert afterDur[|dur| + 1..] == param;
      ParseDescRoundTrip(name, dur, description.value);
    } else {
      assert afterDur == dur;
    }
  }

  /** The name ends at the first ';'. */
  lemma ParseTokenSplit(name: string, params: string)
    requires ';' !in name
    ensures ParseToken(name + [';'] + params) == ParseParams(name, params)
  {
    var t := name + [';'] + params;
    IndexOfFirst(name, ';', params);
    assert t[..|name|] == name;
    assert t[|name| + 1..] == params;
  }

  lemma ParseParamsDur(name: string, afterDur: string)
    ensures ParseParams(name, "dur=" + afterDur) == ParseDur(name, afterDur)
  {
    var params := "dur=" + afterDur;
    assert params[..4] == "dur=";
    assert params[4..] == afterDur;
  }

  /** Reading a written metric gives back its name, its duration and its
      description when that was non-empty, provided neither the name nor the
      duration contains ';'. */
  lemma ParseTokenRoundTrip(name: string, dur: string, description: Option<string>)
    requires ';' !in name && ';' !in dur
    ensures ParseToken(Token(name, dur, description))
            == Some(Fields(name, dur, if IsNonEmpty(description) then description else None))
  {
    var afterDur := dur + DescParam(description);
    assert Token(name, dur, description) == name + [';'] + ("dur=" + afterDur);
    ParseTokenSplit(name, "dur=" + afterDur);
    ParseParamsDur(name, afterDur);
    ParseDurRoundTrip(name, dur, description);
  }
}
