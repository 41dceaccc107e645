/** Python's insertion-ordered `dict`, as its key order and its key-to-value map. */
module Dicts {

  /** The sequence `s` with every occurrence of `x` taken out, order kept. */
  function Without<K(==,!new)>(s: seq<K>, x: K): (r: seq<K>)
    ensures forall y :: y in r <==> y in s && y != x
    ensures Distinct(s) ==> Distinct(r)
  {
    if |s| == 0 then []
    else if s[0] == x then Without(s[1..], x)
    else
      var rest := Without(s[1..], x);
      assert Distinct(s) ==> forall j :: 0 <= j < |s| - 1 ==> s[1..][j] != s[0];
      assert Distinct(s) ==> s[0] !in s[1..];
      assert Distinct(s) ==> forall j :: 0 <= j < |rest| ==> rest[j] in s[1..] && rest[j] != s[0];
      [s[0]] + rest
  }

  /**
   * Taking `x` out keeps the other elements in their relative order: two
   * elements other than `x` appear in the result in the order they had in `s`.
   */
  lemma {:induction false} WithoutKeepsOrder<K(!new)>(s: seq<K>, x: K, i: int, j: int)
    requires 0 <= i < j < |s| && s[i] != x && s[j] != x
    ensures exists a, b :: 0 <= a < b < |Without(s, x)| && Without(s, x)[a] == s[i] && Without(s, x)[b] == s[j]
  {
    var rest := Without(s[1..], x);
    if i == 0 {
      assert s[1..][j - 1] == s[j];
      assert s[j] in rest;
      var b :| 0 <= b < |rest| && rest[b] == s[j];
      assert Without(s, x) == [s[0]] + rest;
      assert Without(s, x)[0] == s[i] && Without(s, x)[b + 1] == s[j];
    } else {
      WithoutKeepsOrder(s[1..], x, i - 1, j - 1);
      var a, b :| 0 <= a < b < |rest| && rest[a] == s[1..][i - 1] && rest[b] == s[1..][j - 1];
      if s[0] == x {
        assert Without(s, x) == rest;
      } else {
        assert Without(s, x) == [s[0]] + rest;
        assert Without(s, x)[a + 1] == s[i] && Without(s, x)[b + 1] == s[j];
      }
    }
  }

  predicate Distinct<K(==)>(s: seq<K>)
  {
    forall i, j :: 0 <= i < j < |s| ==> s[i] != s[j]
  }

  datatype Dict<K(==,!new), V> = Dict(keys: seq<K>, vals: map<K, V>) {

    /** The keys are listed once each, and they are exactly the keys of the map. */
    ghost predicate Valid()
    {
      Distinct(keys) && forall k :: k in vals <==> k in keys
    }

    /** `d.get(k, default)` */
    function Get(k: K, default: V): V
    {
      if k in vals then vals[k] else default
    }

    /** `d[k] = v`: an existing key keeps its place, a new one goes last. */
    function Set(k: K, v: V): Dict<K, V>
    {
      if k in vals then Dict(keys, vals[k := v]) else Dict(keys + [k], vals[k := v])
    }

    /** Assignment keeps the keys distinct and in step with the map. */
    lemma SetValid(k: K, v: V)
      requires Valid()
      ensures Set(k, v).Valid()
    {
    }

    /** `d.pop(k)` for a key that is present: its value, and the dict without it. */
    function Pop(k: K): (r: (V, Dict<K, V>))
      requires k in vals
      ensures r.0 == vals[k]
      ensures r.1.vals == vals - {k}
      ensures r.1.keys == Without(keys, k)
    {
      (vals[k], Dict(Without(keys, k), vals - {k}))
    }

    /** Removal keeps the keys distinct and in step with the map. */
    lemma PopValid(k: K)
      requires Valid() && k in vals
      ensures Pop(k).1.Valid()
    {
    }
  }

  /** `d[k] += c` when `k` is present, `d[k] = c` otherwise. */
  function AddTo<K(==,!new)>(d: Dict<K, nat>, k: K, c: nat): (r: Dict<K, nat>)
    ensures r.vals == d.vals[k := d.Get(k, 0) + c]
    ensures r.keys == if k in d.vals then d.keys else d.keys + [k]
  {
    if k in d.vals then d.Set(k, d.vals[k] + c) else d.Set(k, c)
  }

  lemma AddToGet<K(!new)>(d: Dict<K, nat>, k: K, c: nat, x: K)
    ensures AddTo(d, k, c).Get(x, 0) == d.Get(x, 0) + (if x == k then c else 0)
    ensures x in AddTo(d, k, c).vals <==> x in d.vals || x == k
  {
  }

  lemma AddToValid<K(!new)>(d: Dict<K, nat>, k: K, c: nat)
    requires d.Valid()
    ensures AddTo(d, k, c).Valid()
  {
  }

  function Empty<K(==,!new), V>(): (d: Dict<K, V>)
    ensures d.Valid() && d.keys == [] && d.vals == map[]
  {
    Dict([], map[])
  }
}
