/** A JavaScript `Map` with string keys as an association list: entries keep insertion order,
    `set` on a present key replaces its value in place, `set` on a new key
    appends, `delete` removes the key. */
module OrderedMap {
  import opened Wrappers

  type Entries<V> = seq<(string, V)>

  /** The keys in iteration order (`map.keys()`). */
  function Keys<V>(m: Entries<V>): (ks: seq<string>)
    ensures |ks| == |m|
    ensures forall i :: 0 <= i < |m| ==> ks[i] == m[i].0
  {
    if |m| == 0 then [] else [m[0].0] + Keys(m[1..])
  }

  lemma KeysCons<V>(e: (string, V), m: Entries<V>)
    ensures Keys([e] + m) == [e.0] + Keys(m)
  {
    assert ([e] + m)[1..] == m;
  }

  /** No key occurs twice: what every JavaScript `Map` satisfies. */
  predicate DistinctKeys<V>(m: Entries<V>) {
    forall i, j :: 0 <= i < j < |m| ==> m[i].0 != m[j].0
  }

  /** `map.get(k)`: the value of the first entry with key `k`. */
  function Get<V>(m: Entries<V>, k: string): (r: Option<V>)
    ensures r.Some? <==> k in Keys(m)
  {
    if |m| == 0 then None
    else if m[0].0 == k then Some(m[0].1)
    else Get(m[1..], k)
  }

  /** `map.set(k, v)`. */
  function Set<V>(m: Entries<V>, k: string, v: V): (r: Entries<V>)
    ensures Get(r, k) == Some(v)
    ensures forall j :: j != k ==> Get(r, j) == Get(m, j)
  {
    if |m| == 0 then [(k, v)]
    else if m[0].0 == k then [(k, v)] + m[1..]
    else
      var rest := Set(m[1..], k, v);
      var r := [m[0]] + rest;
      assert r[1..] == rest;
      r
  }

  /** `set` keeps the key order: a present key stays where it is, a new key goes last. */
  lemma {:induction false} SetKeys<V>(m: Entries<V>, k: string, v: V)
    ensures Keys(Set(m, k, v)) == if k in Keys(m) then Keys(m) else Keys(m) + [k]
  {
    if |m| > 0 {
      assert m == [m[0]] + m[1..];
      if m[0].0 == k {
        KeysCons((k, v), m[1..]);
        KeysCons(m[0], m[1..]);
      } else {
        SetKeys(m[1..], k, v);
        KeysCons(m[0], Set(m[1..], k, v));
        KeysCons(m[0], m[1..]);
      }
    }
  }

  /** `set` never makes a key appear twice. */
  lemma SetKeepsDistinct<V>(m: Entries<V>, k: string, v: V)
    requires DistinctKeys(m)
    ensures DistinctKeys(Set(m, k, v))
  {
    SetKeys(m, k, v);
    var r := Set(m, k, v);
    forall i, j | 0 <= i < j < |r|
      ensures r[i].0 != r[j].0
    {
      assert Keys(r)[i] == r[i].0 && Keys(r)[j] == r[j].0;
    }
  }

  /** `map.delete(k)`. */
  function Delete<V>(m: Entries<V>, k: string): (r: Entries<V>)
    ensures Get(r, k) == None
    ensures forall j :: j != k ==> Get(r, j) == Get(m, j)
  {
    if |m| == 0 then []
    else if m[0].0 == k then Delete(m[1..], k)
    else
      var rest := Delete(m[1..], k);
      var r := [m[0]] + rest;
      assert r[1..] == rest;
      r
  }

  /** Deleting a key that is not there changes nothing. */
  lemma {:induction false} DeleteAbsent<V>(m: Entries<V>, k: string)
    requires k !in Keys(m)
    ensures Delete(m, k) == m
  {
    if |m| > 0 {
      assert Keys(m) == [m[0].0] + Keys(m[1..]);
      DeleteAbsent(m[1..], k);
      assert m == [m[0]] + m[1..];
    }
  }

  /** `delete` removes exactly the deleted key from the key list. */
  lemma {:induction false} DeleteKeys<V>(m: Entries<V>, k: string)
    ensures forall j :: j in Keys(Delete(m, k)) <==> j in Keys(m) && j != k
  {
    if |m| > 0 {
      DeleteKeys(m[1..], k);
      assert Keys(m) == [m[0].0] + Keys(m[1..]);
      if m[0].0 != k {
        KeysCons(m[0], Delete(m[1..], k));
      }
    }
  }

  /** `delete` never makes a key appear twice. */
  lemma {:induction false} DeleteKeepsDistinct<V>(m: Entries<V>, k: string)
    requires DistinctKeys(m)
    ensures DistinctKeys(Delete(m, k))
  {
    if |m| > 0 {
      DeleteKeepsDistinct(m[1..], k);
      if m[0].0 != k {
        var rest := Delete(m[1..], k);
        DeleteKeys(m[1..], k);
        assert m[0].0 !in Keys(m[1..]);
        assert m[0].0 !in Keys(rest);
        var r := [m[0]] + rest;
        forall i, j | 0 <= i < j < |r|
          ensures r[i].0 != r[j].0
        {
          if i == 0 {
            assert r[j].0 == Keys(rest)[j - 1];
          } else {
            assert r[i] == rest[i - 1] && r[j] == rest[j - 1];
          }
        }
      }
    }
  }

  /** Deleting the first key of a map leaves the rest of it, in order. */
  lemma DeleteFirst<V>(m: Entries<V>)
    requires DistinctKeys(m) && |m| > 0
    ensures Delete(m, m[0].0) == m[1..]
  {
    assert m[0].0 !in Keys(m[1..]);
    DeleteAbsent(m[1..], m[0].0);
  }

  /** `delete` of the key at position `i` leaves every other entry where it
      was: the entries before `i`, then the entries after it, in order. */
  lemma {:induction false} DeleteAt<V>(m: Entries<V>, i: nat)
    requires DistinctKeys(m) && i < |m|
    ensures Delete(m, m[i].0) == m[..i] + m[i + 1..]
  {
    if i == 0 {
      DeleteFirst(m);
    } else {
      var k, tail := m[i].0, m[1..];
      assert tail[i - 1] == m[i];
      assert Delete(tail, k) == tail[..i - 1] + tail[i..] by {
        DistinctTail(m);
        DeleteAt(tail, i - 1);
      }
      assert Delete(m, k) == [m[0]] + Delete(tail, k) by {
        assert m[0].0 != k;
      }
      ConsSplice(m, i);
    }
  }

  /** The entries after the first of a map with distinct keys have distinct keys. */
  lemma DistinctTail<V>(m: Entries<V>)
    requires DistinctKeys(m) && |m| > 0
    ensures DistinctKeys(m[1..])
  {
    forall a, b | 0 <= a < b < |m| - 1
      ensures m[1..][a].0 != m[1..][b].0
    {
      assert m[1..][a] == m[a + 1] && m[1..][b] == m[b + 1];
    }
  }

  /** Cutting out position `i > 0` commutes with putting the first entry back. */
  lemma ConsSplice<V>(m: Entries<V>, i: nat)
    requires 0 < i < |m|
    ensures [m[0]] + (m[1..][..i - 1] + m[1..][i..]) == m[..i] + m[i + 1..]
  {
    assert m[1..][..i - 1] == m[1..i] && m[1..][i..] == m[i + 1..];
    assert m[..i] == [m[0]] + m[1..i];
  }

  /** Setting a new key and then deleting it restores the map exactly. */
  lemma {:induction false} DeleteUndoesNewSet<V>(m: Entries<V>, k: string, v: V)
    requires k !in Keys(m)
    ensures Delete(Set(m, k, v), k) == m
  {
    if |m| > 0 {
      assert Keys(m) == [m[0].0] + Keys(m[1..]);
      DeleteUndoesNewSet(m[1..], k, v);
      var rest := Set(m[1..], k, v);
      assert Set(m, k, v) == [m[0]] + rest;
      assert ([m[0]] + rest)[1..] == rest;
      assert m == [m[0]] + m[1..];
    }
  }

  /** With distinct keys, `get` finds the value stored at the key's position. */
  lemma GetAt<V>(m: Entries<V>, i: nat)
    requires DistinctKeys(m) && i < |m|
    ensures Get(m, m[i].0) == Some(m[i].1)
  {
    if i > 0 {
      GetAt(m[1..], i - 1);
    }
  }

  // ----- Abstraction to a mathematical map -----

  /** The finite map an association list stands for (the first entry of a key wins). */
  function ToMap<V>(m: Entries<V>): map<string, V>
  {
    if |m| == 0 then map[]
    else ToMap(m[1..])[m[0].0 := m[0].1]
  }

  /** `get` is lookup in the abstract map. */
  lemma {:induction false} GetIsLookup<V>(m: Entries<V>, k: string)
    ensures Get(m, k) == if k in ToMap(m) then Some(ToMap(m)[k]) else None
  {
    if |m| > 0 {
      GetIsLookup(m[1..], k);
    }
  }

  /** `set` is map update. */
  lemma {:induction false} SetIsUpdate<V>(m: Entries<V>, k: string, v: V)
    ensures ToMap(Set(m, k, v)) == ToMap(m)[k := v]
  {
    if |m| > 0 && m[0].0 != k {
      var rest := Set(m[1..], k, v);
      var r := [m[0]] + rest;
      assert Set(m, k, v) == r;
      assert r[1..] == rest;
      SetIsUpdate(m[1..], k, v);
      var below := ToMap(m[1..]);
      calc {
        ToMap(r);
        ToMap(rest)[m[0].0 := m[0].1];
        below[k := v][m[0].0 := m[0].1];
        { UpdatesCommute(below, k, v, m[0].0, m[0].1); }
        below[m[0].0 := m[0].1][k := v];
        ToMap(m)[k := v];
      }
    }
  }

  lemma UpdatesCommute<V>(m: map<string, V>, k: string, v: V, k': string, v': V)
    requires k != k'
    ensures m[k := v][k' := v'] == m[k' := v'][k := v]
  {
  }

  /** `delete` is map subtraction. */
  lemma {:induction false} DeleteIsRemoval<V>(m: Entries<V>, k: string)
    ensures ToMap(Delete(m, k)) == ToMap(m) - {k}
  {
    if |m| > 0 {
      DeleteIsRemoval(m[1..], k);
      if m[0].0 != k {
        var r := Delete(m, k);
        assert r[1..] == Delete(m[1..], k);
      }
    }
  }
}
