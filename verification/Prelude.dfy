/** What several parts of the model need and no part of the program defines. */
module Prelude {
  datatype Option<+T> = None | Some(value: T)

  lemma SizeOfSubset<T>(a: set<T>, b: set<T>)
    requires a <= b
    ensures |a| <= |b|
  {
    assert b == a + (b - a);
  }
}
