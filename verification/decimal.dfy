/** Fixed-point rendering of durations: `Number.prototype.toFixed` as defined
    in section 21.1.3.3 of ECMA-262, over exact real numbers. */
module Decimal {
  import opened Wrappers

  function Pow10(n: nat): (r: nat)
    ensures r >= 1
  {
    if n == 0 then 1 else 10 * Pow10(n - 1)
  }

  function Abs(x: real): (r: real)
    ensures r >= 0.0 && (r == x || r == -x)
  {
    if x < 0.0 then -x else x
  }

  predicate IsDigit(c: char) {
    '0' <= c <= '9'
  }

  predicate AllDigits(s: string) {
    forall i :: 0 <= i < |s| ==> IsDigit(s[i])
  }

  function DigitValue(c: char): (d: nat)
    requires IsDigit(c)
    ensures d < 10
  {
    c as int - '0' as int
  }

  function DigitChar(d: nat): (c: char)
    requires d < 10
    ensures IsDigit(c) && DigitValue(c) == d
  {
    ('0' as int + d) as char
  }

  /** The number a string of decimal digits denotes (leading zeros allowed). */
  function DigitsValue(s: string): (v: nat)
    requires AllDigits(s)
    ensures v < Pow10(|s|)
  {
    if |s| == 0 then 0
    else DigitsValue(s[..|s| - 1]) * 10 + DigitValue(s[|s| - 1])
  }

  /** The decimal representation of `n`, without leading zeros ("0" for zero). */
  function NatToDigits(n: nat): (s: string)
    ensures |s| >= 1 && AllDigits(s)
    ensures DigitsValue(s) == n
    ensures |s| == 1 || s[0] != '0'
    ensures n > 0 ==> s[0] != '0'
    decreases n
  {
    if n < 10 then [DigitChar(n)]
    else
      var s := NatToDigits(n / 10) + [DigitChar(n % 10)];
      assert s[..|s| - 1] == NatToDigits(n / 10);
      s
  }

  function Zeros(k: nat): (s: string)
    ensures |s| == k && AllDigits(s)
    ensures forall i :: 0 <= i < k ==> s[i] == '0'
  {
    seq(k, _ => '0')
  }

  lemma {:induction false} ZerosValue(k: nat)
    ensures DigitsValue(Zeros(k)) == 0
  {
    if k > 0 {
      assert Zeros(k)[..k - 1] == Zeros(k - 1);
      ZerosValue(k - 1);
    }
  }

  /** Reading `a + b` as digits: `a` is shifted left by the length of `b`. */
  lemma {:induction false} DigitsValueConcat(a: string, b: string)
    requires AllDigits(a) && AllDigits(b)
    ensures AllDigits(a + b)
    ensures DigitsValue(a + b) == DigitsValue(a) * Pow10(|b|) + DigitsValue(b)
    decreases |b|
  {
    if |b| == 0 {
      assert a + b == a;
    } else {
      var b' := b[..|b| - 1];
      assert (a + b)[..|a + b| - 1] == a + b';
      DigitsValueConcat(a, b');
      var va, vb', d, p := DigitsValue(a), DigitsValue(b'), DigitValue(b[|b| - 1]), Pow10(|b'|);
      assert DigitsValue(a + b) == DigitsValue(a + b') * 10 + d;
      assert DigitsValue(b) == vb' * 10 + d;
      assert Pow10(|b|) == p * 10;
      ShiftDistributes(va, vb', p, d);
    }
  }

  lemma ShiftDistributes(va: nat, vb: nat, p: nat, d: nat)
    ensures (va * p + vb) * 10 + d == va * (p * 10) + (vb * 10 + d)
  {
  }

  /** `x` with the decimal point moved `f` places to the right. */
  function Shift(x: real, f: nat): real {
    x * (Pow10(f) as real)
  }

  /** The integer `n` of step 10.a of toFixed for a non-negative `x`: the
      integer nearest to `x * 10^f`, the larger one when two are equally near. */
  function NearestScaled(x: real, f: nat): (n: nat)
    requires x >= 0.0
    ensures (n as real) - 0.5 <= Shift(x, f) < (n as real) + 0.5
  {
    var y := Shift(x, f) + 0.5;
    assert y >= 0.5;
    y.Floor
  }

  /** No other integer meets that bound: the nearest integer is unique. */
  lemma NearestScaledUnique(x: real, f: nat, m: int)
    requires x >= 0.0
    requires (m as real) - 0.5 <= Shift(x, f) < (m as real) + 0.5
    ensures m == NearestScaled(x, f)
  {
  }

  /** Step 10.c of toFixed: pad `m` with zeros to more than `f` digits and put
      a decimal point before the last `f` of them. */
  function PointDigits(m: string, f: nat): (q: string)
    requires AllDigits(m) && |m| >= 1
    ensures f == 0 ==> q == m
    ensures f > 0 ==> |q| >= f + 2 && q[|q| - f - 1] == '.'
  {
    if f == 0 then m
    else
      var padded := if |m| <= f then Zeros(f + 1 - |m|) + m else m;
      var k := |padded|;
      padded[..k - f] + "." + padded[k - f..]
  }

  /** Number.prototype.toFixed(fractionDigits) applied to `x`. `None` is the
      RangeError thrown when `fractionDigits` lies outside 0..100. */
  function ToFixed(x: real, fractionDigits: int): (r: Option<string>)
    ensures r.Some? <==> 0 <= fractionDigits <= 100
  {
    if fractionDigits < 0 || fractionDigits > 100 then None
    else
      var sign := if x < 0.0 then "-" else "";
      Some(sign + PointDigits(NatToDigits(NearestScaled(Abs(x), fractionDigits)), fractionDigits))
  }

  // ----- The notation toFixed produces, stated independently of how it is built -----

  /** 1 when `s` starts with a minus sign, else 0. */
  function SignLength(s: string): (p: nat)
    ensures p <= |s|
  {
    if |s| > 0 && s[0] == '-' then 1 else 0
  }

  /** A run of digits without a leading zero, unless it is a single digit. */
  predicate NoLeadingZero(d: string) {
    |d| == 1 || (|d| > 0 && d[0] != '0')
  }

  /** `s` matches `-?(0|[1-9][0-9]*)` when `f` is 0 and
      `-?(0|[1-9][0-9]*)\.[0-9]{f}` otherwise. */
  predicate IsFixedNotation(s: string, f: nat) {
    var p := SignLength(s);
    if f == 0 then |s| > p && AllDigits(s[p..]) && NoLeadingZero(s[p..])
    else
      && |s| >= p + f + 2
      && AllDigits(s[p..|s| - f - 1])
      && NoLeadingZero(s[p..|s| - f - 1])
      && s[|s| - f - 1] == '.'
      && AllDigits(s[|s| - f..])
  }

  /** The digits of a fixed notation read as one integer, ignoring sign and
      point: the value of `s` is this number divided by `10^f`. */
  function ScaledMagnitude(s: string, f: nat): nat
    requires IsFixedNotation(s, f)
  {
    var p := SignLength(s);
    if f == 0 then DigitsValue(s[p..])
    else DigitsValue(s[p..|s| - f - 1]) * Pow10(f) + DigitsValue(s[|s| - f..])
  }

  /** Every character of a fixed notation is a digit, '-' or '.'. */
  predicate FixedChar(c: char) {
    IsDigit(c) || c == '-' || c == '.'
  }

  lemma FixedNotationChars(s: string, f: nat)
    requires IsFixedNotation(s, f)
    ensures forall i :: 0 <= i < |s| ==> FixedChar(s[i])
  {
    var p := SignLength(s);
    forall i | 0 <= i < |s|
      ensures FixedChar(s[i])
    {
      if i < p {
      } else if f == 0 {
        assert s[p..][i - p] == s[i];
      } else if i < |s| - f - 1 {
        assert s[p..|s| - f - 1][i - p] == s[i];
      } else if i > |s| - f - 1 {
        assert s[|s| - f..][i - (|s| - f)] == s[i];
      }
    }
  }

  /** Zero padding on the left does not change the value of a digit string. */
  lemma PadValue(m: string, k: nat)
    requires AllDigits(m)
    ensures AllDigits(Zeros(k) + m)
    ensures DigitsValue(Zeros(k) + m) == DigitsValue(m)
  {
    DigitsValueConcat(Zeros(k), m);
    ZerosValue(k);
  }

  /** Shape of step 10.c: the part before the point and the `f` digits after
      it together read as the digits that went in. */
  lemma PointDigitsShape(m: string, f: nat)
    requires AllDigits(m) && |m| >= 1 && f > 0
    ensures var q := PointDigits(m, f);
      && |q| >= f + 2
      && AllDigits(q[..|q| - f - 1])
      && q[|q| - f - 1] == '.'
      && AllDigits(q[|q| - f..])
      && DigitsValue(q[..|q| - f - 1]) * Pow10(f) + DigitsValue(q[|q| - f..]) == DigitsValue(m)
      && (|m| <= f ==> |q| == f + 2)
      && (|m| > f ==> q[..|q| - f - 1] == m[..|m| - f])
  {
    var padded := if |m| <= f then Zeros(f + 1 - |m|) + m else m;
    if |m| <= f {
      PadValue(m, f + 1 - |m|);
    }
    assert AllDigits(padded) && DigitsValue(padded) == DigitsValue(m);
    var k := |padded|;
    var a, b := padded[..k - f], padded[k - f..];
    assert padded == a + b;
    assert AllDigits(a) && AllDigits(b);
    assert |b| == f;
    DigitsValueConcat(a, b);
    assert DigitsValue(a) * Pow10(f) + DigitsValue(b) == DigitsValue(m);
    var q := PointDigits(m, f);
    assert q == a + "." + b;
    assert q[..|q| - f - 1] == a;
    assert q[|q| - f..] == b;
  }

  /** With `f > 0`, the part of step 10.c before the point is a single digit
      or begins like the digits that went in. */
  lemma PointDigitsIntegerPart(m: string, f: nat)
    requires AllDigits(m) && NoLeadingZero(m) && f > 0
    ensures var q := PointDigits(m, f);
      |q| >= f + 2 && NoLeadingZero(q[..|q| - f - 1])
  {
    PointDigitsShape(m, f);
    var q := PointDigits(m, f);
    var a := q[..|q| - f - 1];
    if |m| > f {
      assert a == m[..|m| - f];
      assert a[0] == m[0];
    } else {
      assert |a| == 1;
    }
  }

  /** Step 10.c with a point: an unsigned fixed notation of the digits' value. */
  lemma PointDigitsFixedPoint(m: string, f: nat)
    requires AllDigits(m) && NoLeadingZero(m) && f > 0
    ensures var q := PointDigits(m, f);
      IsFixedNotation(q, f) && SignLength(q) == 0 && ScaledMagnitude(q, f) == DigitsValue(m)
  {
    var q := PointDigits(m, f);
    PointDigitsShape(m, f);
    PointDigitsIntegerPart(m, f);
    var a := q[..|q| - f - 1];
    assert IsDigit(a[0]);
    assert q[0] == a[0];
    assert SignLength(q) == 0;
    assert q[0..|q| - f - 1] == a;
    assert IsFixedNotation(q, f);
    assert ScaledMagnitude(q, f) == DigitsValue(a) * Pow10(f) + DigitsValue(q[|q| - f..]);
  }

  /** Step 10.c produces an unsigned fixed notation of the digits' value. */
  lemma PointDigitsFixed(m: string, f: nat)
    requires AllDigits(m) && NoLeadingZero(m)
    ensures var q := PointDigits(m, f);
      IsFixedNotation(q, f) && SignLength(q) == 0 && ScaledMagnitude(q, f) == DigitsValue(m)
  {
    if f == 0 {
      var q := PointDigits(m, f);
      assert q == m;
      assert IsDigit(q[0]);
      assert q[0..] == q;
    } else {
      PointDigitsFixedPoint(m, f);
    }
  }

  /** Step 11 of toFixed: a leading minus sign keeps the notation and its digits. */
  lemma PrependSign(sign: string, q: string, f: nat)
    requires sign == "" || sign == "-"
    requires IsFixedNotation(q, f) && SignLength(q) == 0
    ensures IsFixedNotation(sign + q, f)
    ensures SignLength(sign + q) == |sign|
    ensures ScaledMagnitude(sign + q, f) == ScaledMagnitude(q, f)
  {
    var s := sign + q;
    assert q[0..] == q;
    assert s[|sign|..] == q;
    if f > 0 {
      assert s[|sign|..|s| - f - 1] == q[..|q| - f - 1];
      assert s[|s| - f..] == q[|q| - f..];
    }
  }

  /** toFixed yields the fixed notation with `f` fraction digits whose value
      is nearest to `x` (ties away from zero), negative exactly when `x` is. */
  lemma ToFixedIsNearestDecimal(x: real, f: nat)
    requires f <= 100
    ensures ToFixed(x, f).Some?
    ensures var s := ToFixed(x, f).value;
      && IsFixedNotation(s, f)
      && (SignLength(s) == 1 <==> x < 0.0)
      && (ScaledMagnitude(s, f) as real) - 0.5 <= Shift(Abs(x), f)
      && Shift(Abs(x), f) < (ScaledMagnitude(s, f) as real) + 0.5
  {
    var n := NearestScaled(Abs(x), f);
    var m := NatToDigits(n);
    var sign := if x < 0.0 then "-" else "";
    var q := PointDigits(m, f);
    PointDigitsFixed(m, f);
    PrependSign(sign, q, f);
    var s := sign + q;
    assert ToFixed(x, f) == Some(s);
    assert ScaledMagnitude(s, f) == n;
    assert SignLength(s) == 1 <==> x < 0.0;
  }

  /** With zero fraction digits the result has no point: `-?[0-9]+`. */
  lemma ToFixedZeroDigitsIsInteger(x: real)
    ensures ToFixed(x, 0).Some?
    ensures var s := ToFixed(x, 0).value;
      && |s| > SignLength(s)
      && AllDigits(s[SignLength(s)..])
      && (x >= 0.0 ==> AllDigits(s))
  {
    ToFixedIsNearestDecimal(x, 0);
  }
}
