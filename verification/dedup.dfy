/** First-occurrence deduplication, as both import loops do it: walk the
    parsed questions in order, remember each key in a "seen" set, keep an
    element the first time its key appears and count every later copy as a
    duplicate. The key is a parameter: the CLI keys on the trimmed text, the
    web server on the exact text. */
module Dedup {
  import opened Common

  /** The outcome of one pass: the kept elements, how many were dropped, and
      the keys seen. */
  datatype Pass<T, K> = Pass(unique: seq<T>, duplicates: nat, seen: set<K>)

  /** No two elements share a key. */
  predicate KeysDistinct<T, K(==)>(s: seq<T>, key: T -> K)
  {
    forall i, j | 0 <= i < j < |s| :: key(s[i]) != key(s[j])
  }

  function Keys<T, K>(s: seq<T>, key: T -> K): set<K>
  {
    set i | 0 <= i < |s| :: key(s[i])
  }

  /** The loop, as a left fold over the input. */
  function DedupBy<T, K(==)>(xs: seq<T>, key: T -> K): (p: Pass<T, K>)
    ensures p.seen == Keys(xs, key) == Keys(p.unique, key)
    ensures KeysDistinct(p.unique, key)
    ensures |p.unique| + p.duplicates == |xs|
  {
    if |xs| == 0 then Pass([], 0, {})
    else
      var n := |xs| - 1;
      var p := DedupBy(xs[..n], key);
      var x := xs[n];
      assert Keys(xs, key) == Keys(xs[..n], key) + {key(x)} by {
        assert forall i | 0 <= i < n :: xs[..n][i] == xs[i];
      }
      if key(x) in p.seen then
        Pass(p.unique, p.duplicates + 1, p.seen)
      else
        var u := p.unique + [x];
        assert Keys(u, key) == Keys(p.unique, key) + {key(x)} by {
          assert forall i | 0 <= i < |p.unique| :: u[i] == p.unique[i];
          assert u[|p.unique|] == x;
        }
        Pass(u, p.duplicates, p.seen + {key(x)})
  }

  /** Position `i` holds the first element with its key. */
  predicate IsFirst<T, K(==)>(xs: seq<T>, key: T -> K, i: int)
    requires 0 <= i < |xs|
  {
    forall j | 0 <= j < i :: key(xs[j]) != key(xs[i])
  }

  /** The reference definition: the elements at first positions, in input
      order. */
  function FirstOccurrences<T, K(==)>(xs: seq<T>, key: T -> K): seq<T>
  {
    if |xs| == 0 then []
    else
      var n := |xs| - 1;
      FirstOccurrences(xs[..n], key) + if IsFirst(xs, key, n) then [xs[n]] else []
  }

  /** The loop keeps exactly the first occurrence of every key, in input
      order, and counts every other element as a duplicate. */
  lemma {:induction false} DedupKeepsFirstOccurrences<T, K>(xs: seq<T>, key: T -> K)
    ensures DedupBy(xs, key).unique == FirstOccurrences(xs, key)
    ensures DedupBy(xs, key).duplicates == |xs| - |FirstOccurrences(xs, key)|
  {
    if |xs| > 0 {
      var n := |xs| - 1;
      DedupKeepsFirstOccurrences(xs[..n], key);
      var p := DedupBy(xs[..n], key);
      assert key(xs[n]) in p.seen <==> !IsFirst(xs, key, n) by {
        assert p.seen == Keys(xs[..n], key);
        assert forall j | 0 <= j < n :: xs[..n][j] == xs[j];
      }
    }
  }

  /** Every kept element comes from the input. */
  lemma {:induction false} UniqueFromInput<T, K>(xs: seq<T>, key: T -> K)
    ensures forall x | x in DedupBy(xs, key).unique :: x in xs
  {
    if |xs| > 0 {
      var n := |xs| - 1;
      UniqueFromInput(xs[..n], key);
      assert forall x | x in xs[..n] :: x in xs;
    }
  }

  /** Deduplicating twice changes nothing: the second pass finds no
      duplicates. */
  lemma DedupIdempotent<T, K>(xs: seq<T>, key: T -> K)
    ensures var u := DedupBy(xs, key).unique;
      DedupBy(u, key).unique == u && DedupBy(u, key).duplicates == 0
  {
    var u := DedupBy(xs, key).unique;
    DistinctKeysUnchanged(u, key);
  }

  /** Input whose keys are already distinct passes through unchanged. */
  lemma {:induction false} DistinctKeysUnchanged<T, K>(xs: seq<T>, key: T -> K)
    requires KeysDistinct(xs, key)
    ensures DedupBy(xs, key).unique == xs && DedupBy(xs, key).duplicates == 0
  {
    if |xs| > 0 {
      var n := |xs| - 1;
      assert KeysDistinct(xs[..n], key);
      DistinctKeysUnchanged(xs[..n], key);
      assert key(xs[n]) !in Keys(xs[..n], key);
      assert xs[..n] + [xs[n]] == xs;
    }
  }
}
