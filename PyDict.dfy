/**
 * Python's built-in `dict` as the script uses it: a table whose keys keep
 * the order in which they were first inserted. It is modelled as an
 * association sequence; assigning to a present key replaces its value where
 * it stands, assigning to a new key appends it.
 */
module PyDict {
  import opened Seqs

  type Dict<K, V> = seq<(K, V)>

  /** The keys in insertion order, as iterating over a dict yields them. */
  function Keys<K, V>(d: Dict<K, V>): (ks: seq<K>)
    ensures |ks| == |d|
    ensures forall i :: 0 <= i < |d| ==> ks[i] == d[i].0
  {
    if d == [] then [] else [d[0].0] + Keys(d[1..])
  }

  /** A dict never holds a key twice. */
  predicate WellFormed<K(==), V>(d: Dict<K, V>)
  {
    Distinct(Keys(d))
  }

  /** `d[k]` for a key that is present. */
  function Get<K(==), V>(d: Dict<K, V>, k: K): (v: V)
    requires k in Keys(d)
    ensures (k, v) in d
  {
    if d[0].0 == k then d[0].1 else Get(d[1..], k)
  }

  /** In a dict without repeated keys, a present key has exactly one stored value. */
  lemma StoredValue<K, V>(d: Dict<K, V>, k: K)
    requires k in Keys(d)
    ensures WellFormed(d) ==> forall e :: e in d && e.0 == k ==> e.1 == Get(d, k)
  {
    var v := Get(d, k);
    if WellFormed(d) {
      forall e | e in d && e.0 == k
        ensures e.1 == v
      {
        var i :| 0 <= i < |d| && d[i] == (k, v);
        var j :| 0 <= j < |d| && d[j] == e;
        assert Keys(d)[i] == Keys(d)[j];
      }
    }
  }

  /**
   * `d[k]` on a `defaultdict`: the value stored with a present key, and the
   * default for a new key.
   */
  function GetOr<K(==), V>(d: Dict<K, V>, k: K, default: V): (v: V)
    ensures k in Keys(d) ==> (k, v) in d
    ensures WellFormed(d) ==> forall e :: e in d && e.0 == k ==> e.1 == v
    ensures k !in Keys(d) ==> v == default
  {
    if k in Keys(d) then StoredValue(d, k); Get(d, k) else default
  }

  /**
   * `d[k] = v`: a present key keeps its place and gets the new value, a new
   * key is appended (SetKeys, SetGet, SetGetOther state this).
   */
  function Set<K(==), V>(d: Dict<K, V>, k: K, v: V): Dict<K, V>
  {
    if d == [] then [(k, v)]
    else if d[0].0 == k then [(k, v)] + d[1..]
    else [d[0]] + Set(d[1..], k, v)
  }

  lemma KeysCons<K, V>(e: (K, V), d: Dict<K, V>)
    ensures Keys([e] + d) == [e.0] + Keys(d)
  {
    assert ([e] + d)[1..] == d;
  }

  /** Assignment keeps the key order, appending the key when it is new. */
  lemma {:induction false} SetKeys<K, V>(d: Dict<K, V>, k: K, v: V)
    ensures Keys(Set(d, k, v)) == if k in Keys(d) then Keys(d) else Keys(d) + [k]
  {
    if d != [] {
      assert d == [d[0]] + d[1..];
      KeysCons(d[0], d[1..]);
      if d[0].0 == k {
        KeysCons((k, v), d[1..]);
      } else {
        SetKeys(d[1..], k, v);
        KeysCons(d[0], Set(d[1..], k, v));
      }
    }
  }

  /** After assignment the key maps to the assigned value. */
  lemma {:induction false} SetGet<K, V>(d: Dict<K, V>, k: K, v: V)
    ensures k in Keys(Set(d, k, v)) && Get(Set(d, k, v), k) == v
  {
    if d != [] && d[0].0 != k {
      SetGet(d[1..], k, v);
      KeysCons(d[0], Set(d[1..], k, v));
      assert ([d[0]] + Set(d[1..], k, v))[1..] == Set(d[1..], k, v);
    }
  }

  /** Assignment leaves every other key's value alone. */
  lemma {:induction false} SetGetOther<K, V>(d: Dict<K, V>, k: K, v: V, other: K)
    requires other in Keys(d) && other != k
    ensures other in Keys(Set(d, k, v)) && Get(Set(d, k, v), other) == Get(d, other)
  {
    SetKeys(d, k, v);
    var s := Set(d, k, v);
    assert d == [d[0]] + d[1..];
    KeysCons(d[0], d[1..]);
    if d[0].0 == other {
      assert s[0] == d[0];
    } else if d[0].0 == k {
      assert s[0].0 == k && s[1..] == d[1..];
    } else {
      SetGetOther(d[1..], k, v, other);
      assert s[0] == d[0] && s[1..] == Set(d[1..], k, v);
    }
  }

  /** Assignment never introduces a repeated key. */
  lemma SetWellFormed<K, V>(d: Dict<K, V>, k: K, v: V)
    requires WellFormed(d)
    ensures WellFormed(Set(d, k, v))
  {
    SetKeys(d, k, v);
    var ks := Keys(d);
    if k !in ks {
      var ks' := ks + [k];
      forall i, j | 0 <= i < j < |ks'| ensures ks'[i] != ks'[j] {
        if j == |ks| {
          assert ks'[i] == ks[i];
        }
      }
    }
  }
}
