/** Optional values: SQL NULLs, missing rows, absent files. */
module Wrappers {

  datatype Option<+T> = None | Some(value: T) {
    function GetOr(default: T): T {
      match this
      case Some(v) => v
      case None => default
    }
  }

  /** A reading of Date.now(): positive, so JavaScript never takes it for false. */
  type Instant = t: int | 1 <= t witness 1
}

/** Counting in finite sets. */
module Sets {
  lemma SubsetSize<T>(a: set<T>, b: set<T>)
    requires a <= b
    ensures |a| <= |b|
  {
    assert b == a + (b - a);
  }

  lemma SameSize<T>(a: set<T>, b: set<T>)
    requires a <= b && |b| <= |a|
    ensures a == b
  {
    assert b == a + (b - a);
  }
}
