/**
 * The values held in a map, counted with multiplicity: the contents of
 * Swift's `Array(dictionary.values)` and of a directory listing read
 * file by file, up to the order, which neither promises.
 */
module Bags {

  /** No element occurs twice in `s`. */
  ghost predicate Distinct<K>(s: seq<K>)
  {
    forall i, j :: 0 <= i < j < |s| ==> s[i] != s[j]
  }

  /** `s` lists every element of `keys` exactly once, in some order. */
  ghost predicate Enumerates<K>(s: seq<K>, keys: set<K>)
  {
    && Distinct(s)
    && (forall k :: k in keys ==> k in s)
    && (forall i :: 0 <= i < |s| ==> s[i] in keys)
  }

  /** Lists the elements of a set, each once, in an order left open: how a
      dictionary's keys or a directory's files come out when iterated. */
  method Enumerate<K(==)>(keys: set<K>) returns (s: seq<K>)
    ensures Enumerates(s, keys)
  {
    s := [];
    var rest := keys;
    while rest != {}
      invariant rest <= keys
      invariant forall k :: k in keys ==> (k in s <==> k !in rest)
      invariant forall k :: k in s ==> k in keys
      invariant Distinct(s)
      decreases rest
    {
      var k :| k in rest;
      s := s + [k];
      rest := rest - {k};
    }
  }

  /** Some key of a non-empty map; which one is left open. */
  ghost function PickKey<K, V>(m: map<K, V>): (k: K)
    requires |m| > 0
    ensures k in m
  {
    var k :| k in m; k
  }

  /** One occurrence of `m[k]` for every key `k` of `m`. */
  ghost function ValuesOf<K, V>(m: map<K, V>): multiset<V>
    decreases |m|
  {
    if |m| == 0 then multiset{}
    else
      var k := PickKey(m);
      assert (m - {k}).Keys == m.Keys - {k};
      ValuesOf(m - {k}) + multiset{m[k]}
  }

  /** The bag holds exactly as many values as the map has keys. */
  lemma {:induction false} ValuesOfSize<K, V>(m: map<K, V>)
    ensures |ValuesOf(m)| == |m|
    decreases |m|
  {
    if |m| > 0 {
      var k := PickKey(m);
      assert (m - {k}).Keys == m.Keys - {k};
      ValuesOfSize(m - {k});
    }
  }

  /** Taking any key out of a map takes exactly its value out of the bag,
      whichever key `ValuesOf` itself picked first. */
  lemma {:induction false} ValuesOfRemove<K, V>(m: map<K, V>, k: K)
    requires k in m
    ensures ValuesOf(m) == ValuesOf(m - {k}) + multiset{m[k]}
    decreases |m|
  {
    var j := PickKey(m);
    if j != k {
      var mj, mk := m - {j}, m - {k};
      assert mj.Keys == m.Keys - {j} && mk.Keys == m.Keys - {k};
      var rest := mj - {k};
      assert rest == mk - {j};
      assert ValuesOf(m) == ValuesOf(mj) + multiset{m[j]};
      ValuesOfRemove(mj, k);
      assert ValuesOf(mj) == ValuesOf(rest) + multiset{m[k]};
      ValuesOfRemove(mk, j);
      assert ValuesOf(mk) == ValuesOf(rest) + multiset{m[j]};
    }
  }

  /** Dropping the last key of an enumeration enumerates the rest of the set. */
  lemma EnumeratesPrefix<K, V>(keys: seq<K>, m: map<K, V>)
    requires Enumerates(keys, m.Keys) && |keys| > 0
    ensures Enumerates(keys[..|keys| - 1], (m - {keys[|keys| - 1]}).Keys)
  {
    var n := |keys| - 1;
    assert (m - {keys[n]}).Keys == m.Keys - {keys[n]};
    forall j | j in m.Keys - {keys[n]} ensures j in keys[..n] {
      var i :| 0 <= i < |keys| && keys[i] == j;
      assert keys[..n][i] == j;
    }
  }

  /** Values read along an enumeration, without the last one, are read along
      its prefix from the map without the last key. */
  lemma ReadAlongPrefix<K, V>(m: map<K, V>, keys: seq<K>, values: seq<V>)
    requires Enumerates(keys, m.Keys)
    requires |values| == |keys| > 0
    requires forall i :: 0 <= i < |keys| ==> values[i] == m[keys[i]]
    ensures var n := |keys| - 1;
            forall i :: 0 <= i < n ==> keys[..n][i] in m - {keys[n]} && values[..n][i] == (m - {keys[n]})[keys[..n][i]]
  {
    var n := |keys| - 1;
    forall i | 0 <= i < n
      ensures keys[..n][i] in m - {keys[n]} && values[..n][i] == (m - {keys[n]})[keys[..n][i]]
    {
      assert keys[i] != keys[n];
    }
  }

  /** The last element of a non-empty sequence, split off its multiset. */
  lemma MultisetOfSnoc<V>(s: seq<V>)
    requires |s| > 0
    ensures multiset(s) == multiset(s[..|s| - 1]) + multiset{s[|s| - 1]}
  {
    assert s == s[..|s| - 1] + [s[|s| - 1]];
  }

  /** Reading the values of a map key by key along an enumeration of its
      keys yields exactly its bag of values. */
  lemma {:induction false} ValuesOfEnumeration<K, V>(m: map<K, V>, keys: seq<K>, values: seq<V>)
    requires Enumerates(keys, m.Keys)
    requires |values| == |keys|
    requires forall i :: 0 <= i < |keys| ==> values[i] == m[keys[i]]
    ensures multiset(values) == ValuesOf(m)
    decreases |keys|
  {
    if |keys| == 0 {
      assert m == map[];
    } else {
      var n := |keys| - 1;
      var k, prefix := keys[n], keys[..n];
      var rest := m - {k};
      EnumeratesPrefix(keys, m);
      ReadAlongPrefix(m, keys, values);
      ValuesOfEnumeration(rest, prefix, values[..n]);
      ValuesOfRemove(m, k);
      MultisetOfSnoc(values);
    }
  }

  /** A value is in the bag exactly when some key maps to it. */
  lemma {:induction false} ValuesOfMembers<K, V>(m: map<K, V>, v: V)
    ensures v in ValuesOf(m) <==> v in m.Values
    decreases |m|
  {
    if |m| > 0 {
      var k := PickKey(m);
      assert (m - {k}).Keys == m.Keys - {k};
      ValuesOfMembers(m - {k}, v);
      assert m.Values == (m - {k}).Values + {m[k]} by {
        forall w | w in m.Values ensures w in (m - {k}).Values + {m[k]} {
          var j :| j in m && m[j] == w;
          if j != k { assert j in m - {k}; }
        }
      }
    }
  }
}
