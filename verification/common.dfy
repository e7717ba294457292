/** Small shared vocabulary: optional values, results, and enumeration of a
    map's keys in the unspecified order Go's `range` over a map (or an SQL
    query without ORDER BY) produces. */
module Common {

  /** A value that may be absent, as a nil-able Go reference. */
  datatype Option<+T> = None | Some(value: T)

  /** A value or an error, as a Go `(T, error)` pair. */
  datatype Result<+T, +E> = Ok(value: T) | Err(error: E)

  /** No element occurs twice. */
  predicate Distinct<T(==)>(s: seq<T>)
  {
    forall i, j | 0 <= i < j < |s| :: s[i] != s[j]
  }

  /** A sequence without repetitions has as many elements as its set. */
  lemma {:induction false} DistinctCard<T>(s: seq<T>)
    requires Distinct(s)
    ensures |set x | x in s| == |s|
  {
    if |s| > 0 {
      DistinctCard(s[1..]);
      assert (set x | x in s) == (set x | x in s[1..]) + {s[0]};
      assert s[0] !in s[1..];
    }
  }

  /** The keys of `m` whose value satisfies `keep`, each exactly once, in an
      order the caller may not rely on. */
  method SelectKeys<K(==), V>(m: map<K, V>, keep: V -> bool) returns (ks: seq<K>)
    ensures Distinct(ks)
    ensures forall k :: k in ks <==> k in m && keep(m[k])
    ensures |ks| == |set k | k in m && keep(m[k])|
  {
    ks := [];
    var rest := m.Keys;
    ghost var chosen: set<K> := {};
    while rest != {}
      invariant rest <= m.Keys
      invariant forall k :: k in ks <==> k in m && k !in rest && keep(m[k])
      invariant chosen == set k | k in m && k !in rest && keep(m[k])
      invariant Distinct(ks)
      invariant |ks| == |chosen|
      decreases rest
    {
      var k :| k in rest;
      if keep(m[k]) {
        assert k !in chosen;
        ks := ks + [k];
        chosen := chosen + {k};
      }
      rest := rest - {k};
    }
    assert chosen == set k | k in m && keep(m[k]);
  }
}
