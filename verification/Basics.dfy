/** Small shared pieces: optional values, extremes of reals, products kept abstract, and facts about sets. */
module Basics {

  datatype Option<+T> = None | Some(value: T)

  function Min(a: real, b: real): real {
    if a <= b then a else b
  }

  function Max(a: real, b: real): real {
    if a >= b then a else b
  }

  /** A product that proofs can keep hidden. */
  function Times(x: real, y: real): real {
    x * y
  }

  lemma TimesAdds(x: real, y: real, z: real)
    ensures Times(x, y + z) == Times(x, y) + Times(x, z)
  {
  }

  lemma TimesOrder(lo: real, x: real, hi: real, w: real)
    requires lo <= x <= hi && w >= 0.0
    ensures Times(lo, w) <= Times(x, w) <= Times(hi, w)
  {
  }

  /** A witness for picking from a nonempty set. */
  lemma Member<T>(s: set<T>) returns (x: T)
    requires s != {}
    ensures x in s
  {
    x :| x in s;
  }

  lemma SubsetSmaller<T>(a: set<T>, b: set<T>)
    requires a <= b
    ensures |a| <= |b|
  {
    assert b == a + (b - a);
  }
}
