/** Cardinality facts about finite sets used by the board proofs. */
module SetCards {
  lemma SubsetCard<T>(a: set<T>, b: set<T>)
    requires a <= b
    ensures |a| <= |b|
  {
    assert b == a + (b - a);
    assert a * (b - a) == {};
  }

  lemma StrictSubsetCard<T>(a: set<T>, b: set<T>, x: T)
    requires a <= b && x in b && x !in a
    ensures |a| < |b|
  {
    SubsetCard(a + {x}, b);
  }

  /** Adding a set disjoint from A adds its size. */
  lemma DisjointUnionCard<T>(a: set<T>, d: set<T>)
    requires a * d == {}
    ensures |a + d| == |a| + |d|
  {
  }
}
