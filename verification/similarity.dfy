/** The similarity weight given to an edge between two cells:
    `int(1000 * (1 + exp(-2 * |score_a - score_b|)))`, used by the edge builder
    and by the connectivity repair alike. `exp` is a parameter. */
module Similarity {
  import opened Magnitude

  /** What the model needs of the exponential on the non-positive reals (it
      holds of floating-point `np.exp`, which may underflow to 0). */
  ghost predicate ValidExp(exp: real -> real) {
    && exp(0.0) == 1.0
    && (forall x :: x <= 0.0 ==> 0.0 <= exp(x) <= 1.0)
    && (forall x, y :: x <= y <= 0.0 ==> exp(x) <= exp(y))
  }

  /** The weight of an edge between cells with scores `sa` and `sb`; `int()`
      of a positive value is its floor. */
  function Weight(exp: real -> real, sa: real, sb: real): (w: int)
    requires ValidExp(exp)
    ensures 1000 <= w <= 2000
    ensures sa == sb ==> w == 2000
  {
    var v := 1000.0 * (1.0 + exp(-2.0 * Abs(sa - sb)));
    assert 1000.0 <= v <= 2000.0;
    v.Floor
  }

  /** A larger score difference never gives a larger weight. */
  lemma WeightMonotone(exp: real -> real, sa: real, sb: real, sc: real, sd: real)
    requires ValidExp(exp)
    requires Abs(sa - sb) <= Abs(sc - sd)
    ensures Weight(exp, sc, sd) <= Weight(exp, sa, sb)
  {
    var x, y := -2.0 * Abs(sc - sd), -2.0 * Abs(sa - sb);
    assert exp(x) <= exp(y);
    var far, near := 1000.0 * (1.0 + exp(x)), 1000.0 * (1.0 + exp(y));
    assert far <= near;
    assert far.Floor <= near.Floor;
  }

  /** The weight does not depend on the direction of the edge. */
  lemma WeightSymmetric(exp: real -> real, sa: real, sb: real)
    requires ValidExp(exp)
    ensures Weight(exp, sa, sb) == Weight(exp, sb, sa)
  {
    assert Abs(sa - sb) == Abs(sb - sa);
  }
}
