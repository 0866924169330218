/** String helpers: prefixes, substring containment and `Array.prototype.join`. */
module Strings {

  /** `p` is a prefix of `s`. */
  predicate IsPrefix(p: string, s: string) {
    |p| <= |s| && s[..|p|] == p
  }

  /** `sub` occurs somewhere in `s` (JavaScript's `s.includes(sub)`). */
  predicate Contains(s: string, sub: string) {
    exists i :: 0 <= i <= |s| && IsPrefix(sub, s[i..])
  }

  lemma PrefixOfConcat(p: string, rest: string)
    ensures IsPrefix(p, p + rest)
  {
    assert (p + rest)[..|p|] == p;
  }

  /** Whatever is placed between two strings occurs in the result. */
  lemma ContainsMiddle(a: string, b: string, c: string)
    ensures Contains(a + b + c, b)
  {
    var s := a + b + c;
    assert s[|a|..][..|b|] == b;
  }

  /** Containment is transitive. */
  lemma ContainsTransitive(s: string, t: string, u: string)
    requires Contains(s, t) && Contains(t, u)
    ensures Contains(s, u)
  {
    var i :| 0 <= i <= |s| && IsPrefix(t, s[i..]);
    var j :| 0 <= j <= |t| && IsPrefix(u, t[j..]);
    assert s[i + j..][..|u|] == t[j..][..|u|];
  }

  /** `parts.join(sep)`: the parts in order with `sep` between neighbours;
      the empty list joins to the empty string. */
  function JoinWith(parts: seq<string>, sep: string): (r: string)
    ensures |parts| > 0 ==> IsPrefix(parts[0], r)
  {
    if |parts| == 0 then ""
    else if |parts| == 1 then parts[0]
    else parts[0] + sep + JoinWith(parts[1..], sep)
  }

  lemma JoinTwo(a: string, b: string, sep: string)
    ensures JoinWith([a, b], sep) == a + sep + b
  {
    assert [a, b][1..] == [b];
  }

  lemma JoinThree(a: string, b: string, c: string, sep: string)
    ensures JoinWith([a, b, c], sep) == a + sep + b + sep + c
  {
    assert [a, b, c][1..] == [b, c];
    JoinTwo(b, c, sep);
  }

  /** Joining one more part extends the old join by `sep` and that part. */
  lemma {:induction false} JoinAppend(parts: seq<string>, p: string, sep: string)
    ensures JoinWith(parts + [p], sep)
            == if |parts| == 0 then p else JoinWith(parts, sep) + sep + p
  {
    if |parts| > 1 {
      assert (parts + [p])[1..] == parts[1..] + [p];
      JoinAppend(parts[1..], p, sep);
    }
  }

  /** The join of a list is made of the join of a prefix, `sep`, and the join of the rest. */
  lemma {:induction false} JoinSplit(parts: seq<string>, i: nat, sep: string)
    requires 0 < i < |parts|
    ensures JoinWith(parts, sep) == JoinWith(parts[..i], sep) + sep + JoinWith(parts[i..], sep)
  {
    if i > 1 {
      JoinSplit(parts[1..], i - 1, sep);
      assert parts[1..][..i - 1] == parts[..i][1..];
      assert parts[1..][i - 1..] == parts[i..];
    }
  }

  /** Every part occurs in the join. */
  lemma JoinContainsPart(parts: seq<string>, i: nat, sep: string)
    requires i < |parts|
    ensures Contains(JoinWith(parts, sep), parts[i])
  {
    var pre := if i == 0 then "" else JoinWith(parts[..i], sep) + sep;
    var post := if i + 1 == |parts| then "" else sep + JoinWith(parts[i + 1..], sep);
    if i > 0 {
      JoinSplit(parts, i, sep);
    }
    if i + 1 < |parts| {
      JoinSplit(parts[i..], 1, sep);
      assert parts[i..][..1] == [parts[i]];
      assert parts[i..][1..] == parts[i + 1..];
    }
    assert JoinWith(parts, sep) == pre + parts[i] + post;
    ContainsMiddle(pre, parts[i], post);
  }
}
