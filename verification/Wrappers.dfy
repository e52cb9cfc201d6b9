/** Results that may be missing, and a fact about finite sets. */
module Wrappers {
  datatype Option<+T> = None | Some(value: T)

  lemma SubsetCard<T>(a: set<T>, b: set<T>)
    requires a <= b
    ensures |a| <= |b|
  {
    assert b == a + (b - a);
  }
}
