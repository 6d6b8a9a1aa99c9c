/**
 * `FloatComparator<T>`: decides whether two scalars are equal within a
 * relative tolerance `epsilon`, scaled by the larger of the two magnitudes.
 */
module FloatComparator {
  import opened Scalar

  datatype FloatComparator = FloatComparator(epsilon: real)
  {
    /**
     * `Compare(lhs, rhs)`: two zeros are always equal; otherwise the
     * values are equal when their distance is below `epsilon` times the
     * larger magnitude.
     */
    function Compare(lhs: real, rhs: real): (r: bool)
      ensures lhs == 0.0 && rhs == 0.0 ==> r
      ensures !(lhs == 0.0 && rhs == 0.0) ==>
                (r <==> Abs(lhs - rhs) < Max(Abs(lhs), Abs(rhs)) * epsilon)
      ensures epsilon <= 0.0 ==> (r <==> lhs == 0.0 && rhs == 0.0)
      ensures 0.0 < epsilon && lhs == rhs ==> r
    {
      var diff := Abs(lhs - rhs);
      var max := Max(Abs(lhs), Abs(rhs));
      if max == 0.0 then true else diff < max * epsilon
    }
  }

  /** The constructor; its argument defaults to machine epsilon. */
  function Create(epsilon: real := EPS): (c: FloatComparator)
    ensures c.epsilon == epsilon
  {
    FloatComparator(epsilon)
  }

  /** A comparator built without an argument uses machine epsilon. */
  lemma DefaultIsMachineEpsilon()
    ensures Create().epsilon == EPS
  {
  }

  /** `Compare` does not depend on the order of its operands. */
  lemma CompareSymmetric(c: FloatComparator, a: real, b: real)
    ensures c.Compare(a, b) == c.Compare(b, a)
  {
  }

  /** For a positive tolerance, every value equals itself. */
  lemma CompareReflexive(c: FloatComparator, a: real)
    requires 0.0 < c.epsilon
    ensures c.Compare(a, a)
  {
  }

  /** Two zeros compare equal whatever the tolerance. */
  lemma ZerosCompareEqual(c: FloatComparator)
    ensures c.Compare(0.0, 0.0)
  {
  }

  /** `Compare(1, 1 + 10 e)` fails for a comparator with tolerance e <= 0.9. */
  lemma TenEpsilonsApartDiffer(e: real)
    requires 0.0 < e <= 0.9
    ensures !Create(e).Compare(1.0, 1.0 + 10.0 * e)
  {
    var c := Create(e);
    var lhs, rhs := 1.0, 1.0 + 10.0 * e;
    assert Abs(lhs - rhs) == 10.0 * e;
    assert Max(Abs(lhs), Abs(rhs)) == rhs;
    TenEpsilonsBound(Abs(lhs - rhs), Max(Abs(lhs), Abs(rhs)), c.epsilon);
  }

  lemma TenEpsilonsBound(diff: real, max: real, e: real)
    requires 0.0 < e <= 0.9 && diff == 10.0 * e && max == 1.0 + 10.0 * e
    ensures !(diff < max * e)
  {
    assert max * e <= 10.0 * e by {
      assert e * e <= 0.9 * e;
    }
  }

  /**
   * With a tolerance of at most 1, equal values are both zero or both
   * non-zero, and have the same sign.
   */
  lemma CompareKeepsSign(c: FloatComparator, a: real, b: real)
    requires c.epsilon <= 1.0
    requires c.Compare(a, b)
    ensures a == 0.0 <==> b == 0.0
    ensures a < 0.0 <==> b < 0.0
  {
    var max := Max(Abs(a), Abs(b));
    if max != 0.0 {
      BelowTolerance(Abs(a - b), max, c.epsilon);
    }
  }

  lemma BelowTolerance(diff: real, max: real, e: real)
    requires 0.0 < max && e <= 1.0 && diff < max * e
    ensures diff < max
  {
    MulLeftMonotone(max, e, 1.0);
  }

  /** The vector equality tolerance is small enough for the sign and zero facts of `Compare`. */
  lemma EqualityEpsilonBelowOne()
    ensures 0.0 < EqualityEpsilon <= 1.0
  {
  }
}
