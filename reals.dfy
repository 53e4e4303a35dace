/** Small facts about Dafny's exact reals used by both solver families. */
module Reals {
  /** Absolute value, as Python's `abs` on a float. */
  function Abs(x: real): (r: real)
    ensures r >= 0.0
    ensures r == x || r == -x
  {
    if x < 0.0 then -x else x
  }

  /** A product of two nonzero reals over a nonzero real is nonzero. */
  lemma QuotientNonzero(u: real, v: real, d: real)
    requires u != 0.0 && v != 0.0 && d != 0.0
    ensures u * v / d != 0.0
  {
    assert u * v != 0.0;
    assert u * v / d * d == u * v;
  }
}
