/** What SELECT ... ORDER BY rank LIMIT n may return, and a way to compute it. */
module Selection {

  /** A total order on ranks in which different ranks may still be equivalent. */
  ghost predicate IsOrdering<V(!new)>(notAfter: (V, V) -> bool) {
    && (forall a, b :: notAfter(a, b) || notAfter(b, a))
    && (forall a, b, c :: notAfter(a, b) && notAfter(b, c) ==> notAfter(a, c))
  }

  /** Keys in order of rank, each once, as many as the limit allows, none left out that ranks before one taken. */
  ghost predicate FirstByRank<K(!new), V(!new)>(
    rank: map<K, V>, notAfter: (V, V) -> bool, limit: int, batch: seq<K>)
  {
    && (forall i :: 0 <= i < |batch| ==> batch[i] in rank)
    && (forall i, j :: 0 <= i < j < |batch| ==> batch[i] != batch[j])
    && (forall i, j :: 0 <= i < j < |batch| ==> notAfter(rank[batch[i]], rank[batch[j]]))
    && |batch| <= limit
    && (|batch| < limit ==> forall k :: k in rank ==> k in batch)
    && (forall i, k :: 0 <= i < |batch| && k in rank && k !in batch ==> notAfter(rank[batch[i]], rank[k]))
  }

  /** With room for all of them, all keys are taken. */
  lemma WithoutLimit<K(!new), V(!new)>(rank: map<K, V>, notAfter: (V, V) -> bool, keys: seq<K>)
    requires FirstByRank(rank, notAfter, |rank|, keys)
    ensures forall k :: k in keys <==> k in rank
  {
    var taken := set k | k in keys;
    DistinctKeysCount(keys);
    assert taken <= rank.Keys;
    assert rank.Keys == taken + (rank.Keys - taken);
  }

  lemma {:induction false} DistinctKeysCount<K>(keys: seq<K>)
    requires forall i, j :: 0 <= i < j < |keys| ==> keys[i] != keys[j]
    ensures |set k | k in keys| == |keys|
  {
    if keys != [] {
      var init, last := keys[..|keys| - 1], keys[|keys| - 1];
      DistinctKeysCount(init);
      assert (set k | k in keys) == (set k | k in init) + {last};
    }
  }

  method FirstOf<K(!new), V(!new)>(rank: map<K, V>, notAfter: (V, V) -> bool, candidates: set<K>) returns (first: K)
    requires IsOrdering(notAfter) && candidates != {} && candidates <= rank.Keys
    ensures first in candidates
    ensures forall k :: k in candidates ==> notAfter(rank[first], rank[k])
  {
    first :| first in candidates;
    var rest := candidates - {first};
    while rest != {}
      invariant first in candidates && rest <= candidates
      invariant forall k :: k in candidates - rest ==> notAfter(rank[first], rank[k])
      decreases rest
    {
      var k :| k in rest;
      if !notAfter(rank[first], rank[k]) {
        first := k;
      }
      rest := rest - {k};
    }
  }

  method SelectFirst<K(!new), V(!new)>(rank: map<K, V>, notAfter: (V, V) -> bool, limit: nat) returns (batch: seq<K>)
    requires IsOrdering(notAfter)
    ensures FirstByRank(rank, notAfter, limit, batch)
  {
    batch := [];
    var candidates := rank.Keys;
    while |batch| < limit && candidates != {}
      invariant |batch| <= limit && candidates <= rank.Keys
      invariant forall k :: k in rank <==> k in candidates || k in batch
      invariant forall i :: 0 <= i < |batch| ==> batch[i] !in candidates
      invariant forall i, j :: 0 <= i < j < |batch| ==> batch[i] != batch[j]
      invariant forall i, j :: 0 <= i < j < |batch| ==> notAfter(rank[batch[i]], rank[batch[j]])
      invariant forall i, k :: 0 <= i < |batch| && k in candidates ==> notAfter(rank[batch[i]], rank[k])
    {
      var next := FirstOf(rank, notAfter, candidates);
      batch := batch + [next];
      candidates := candidates - {next};
    }
  }
}
