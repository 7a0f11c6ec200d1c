/** Shared by several modules: results that may be missing, and the smaller of two numbers or sets. */
module Basics {
  datatype Option<+T> = None | Some(value: T)

  function Least(a: nat, b: nat): nat { if a <= b then a else b }

  lemma SubsetSize<T>(a: set<T>, b: set<T>)
    requires a <= b
    ensures |a| <= |b|
  {
    assert b == a + (b - a);
  }
}
