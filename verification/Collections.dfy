/** Larger and smaller, and the sizes of sets and sequences. */
module Collections {

  function Max(a: int, b: int): int {
    if a < b then b else a
  }

  function Min(a: int, b: int): int {
    if a < b then a else b
  }

  lemma SubsetSize<T>(a: set<T>, b: set<T>)
    requires a <= b
    ensures |a| <= |b| && (|a| == |b| ==> a == b)
  {
    assert |b - a| == |b| - |a|;
  }

  /** A sequence without repetition is as long as the set of its elements is large. */
  lemma {:induction false} DistinctSize<T>(s: seq<T>, all: set<T>)
    requires all == (set x | x in s) && forall i, k | 0 <= i < k < |s| :: s[i] != s[k]
    ensures |all| == |s|
  {
    if s != [] {
      var last, init := s[|s| - 1], s[..|s| - 1];
      assert s == init + [last];
      assert all == (set x | x in init) + {last};
      DistinctSize(init, set x | x in init);
    }
  }
}
