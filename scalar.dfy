/**
 * The scalar kind the vector types are instantiated with (`float` or
 * `double` in the library), modelled as exact `real` arithmetic.
 *
 * Two properties of the scalar kind are used by the library:
 *  - its machine epsilon, `std::numeric_limits<T>::epsilon()`, which is the
 *    absolute guard of every division and the base of the equality tolerance;
 *  - its square root, `std::sqrt`, used by `Length`.
 * Both are left abstract here: `EPS` is some value in (0, 2^-23] (2^-23 is
 * the epsilon of `float`, 2^-52 that of `double`), and `Sqrt` is some
 * function with the properties every square root has.
 */
module Scalar {

  /** Machine epsilon of `float` (2^-23, written out exactly). */
  const FloatEpsilon: real := 0.00000011920928955078125

  /** Values a machine epsilon can take: positive and at most that of `float`. */
  type Epsilon = e: real | 0.0 < e <= FloatEpsilon witness FloatEpsilon

  /** `std::numeric_limits<T>::epsilon()` of the scalar kind. */
  const EPS: Epsilon

  /** The relative tolerance every vector `==` and `!=` passes to the comparator. */
  const EqualityEpsilon: real := 5.0 * EPS

  /**
   * What is known of `std::sqrt` on non-negative arguments: it is
   * non-negative, maps 0 to 0 and 1 to 1, and is strictly increasing.
   */
  ghost predicate IsSquareRoot(f: real -> real)
  {
    && (forall a :: 0.0 <= a ==> 0.0 <= f(a))
    && f(0.0) == 0.0
    && f(1.0) == 1.0
    && (forall a, b :: 0.0 <= a < b ==> f(a) < f(b))
  }

  type SquareRoot = f: real -> real | IsSquareRoot(f)
    witness (a: real) => if a < 0.0 then 0.0 else a

  /** `std::sqrt` of the scalar kind. */
  const Sqrt: SquareRoot

  /**
   * The square root is exact: it squares back to its argument. True of the
   * mathematical square root; lemmas that depend on it take it as a hypothesis.
   */
  ghost predicate SqrtIsExact()
  {
    forall a :: 0.0 <= a ==> Sqrt(a) * Sqrt(a) == a
  }

  /** `std::abs`. */
  function Abs(a: real): (r: real)
    ensures 0.0 <= r
    ensures r == a || r == -a
  {
    if a < 0.0 then -a else a
  }

  /** `std::max`. */
  function Max(a: real, b: real): (r: real)
    ensures a <= r && b <= r
    ensures r == a || r == b
  {
    if a < b then b else a
  }

  /** The square root is zero exactly at zero. */
  lemma SqrtZeroIff(a: real)
    requires 0.0 <= a
    ensures 0.0 <= Sqrt(a)
    ensures Sqrt(a) == 0.0 <==> a == 0.0
  {
    assert IsSquareRoot(Sqrt);
    if a != 0.0 {
      assert Sqrt(0.0) < Sqrt(a);
    }
  }

  /** An exact square root of a square is the base. */
  lemma {:induction false} SqrtOfSquare(a: real)
    requires SqrtIsExact()
    requires 0.0 <= a
    ensures Sqrt(a * a) == a
  {
    var r := Sqrt(a * a);
    assert 0.0 <= r && r * r == a * a;
    if r < a {
      MulStrictlyIncreasing(r, a);
    } else if r > a {
      MulStrictlyIncreasing(a, r);
    }
  }

  /** Squaring is strictly increasing on non-negative values. */
  lemma MulStrictlyIncreasing(u: real, v: real)
    requires 0.0 <= u < v
    ensures u * u < v * v
  {
    var uu, uv, vv := u * u, u * v, v * v;
    MulLeftMonotone(u, u, v);
    var d := v - u;
    MulPositive(d, v);
    assert d * v == vv - uv;
  }

  /** A product of positive values is positive. */
  lemma MulPositive(a: real, b: real)
    requires 0.0 < a && 0.0 < b
    ensures 0.0 < a * b
  {
  }

  /** Multiplying by a non-negative factor keeps the order. */
  lemma MulLeftMonotone(k: real, u: real, v: real)
    requires 0.0 <= k && u <= v
    ensures k * u <= k * v
  {
    assert k * v - k * u == k * (v - u);
  }

  /** `a * a`, named so that the facts below about squares apply to it. */
  function Square(a: real): real
  {
    a * a
  }

  /** A square is non-negative. */
  lemma SquareNonNegative(a: real)
    ensures 0.0 <= Square(a)
  {
  }

  /** A square is zero exactly at zero. */
  lemma SquareZeroIff(a: real)
    ensures Square(a) == 0.0 <==> a == 0.0
  {
    if a != 0.0 {
      SquarePositive(a);
    }
  }

  /** The square of a non-zero value is positive. */
  lemma SquarePositive(a: real)
    requires a != 0.0
    ensures 0.0 < Square(a)
  {
    if a < 0.0 {
      MulStrictlyIncreasing(0.0, -a);
    } else {
      MulStrictlyIncreasing(0.0, a);
    }
  }

  /** Dividing a product by `c` is multiplying by the quotient. */
  lemma DivAssociates(a: real, b: real, c: real)
    requires c != 0.0
    ensures (a * b) / c == a * (b / c)
  {
  }

  /** `DivAssociates` for a value already known to be the product `a * b`. */
  lemma DivOfProduct(p: real, a: real, b: real, c: real)
    requires c != 0.0 && p == a * b
    ensures p / c == a * (b / c)
  {
    DivAssociates(a, b, c);
  }

  /** Dividing a product by one factor leaves the other. */
  lemma MulDivCancel(a: real, c: real)
    requires c != 0.0
    ensures (a * c) / c == a
  {
  }

  /** `MulDivCancel` for a value already known to be the product `a * c`. */
  lemma ProductDivCancel(p: real, a: real, c: real)
    requires c != 0.0 && p == a * c
    ensures p / c == a
  {
    MulDivCancel(a, c);
  }

  /** Multiplying a quotient by its divisor gives back the dividend. */
  lemma DivMulCancel(a: real, c: real)
    requires c != 0.0
    ensures (a / c) * c == a
  {
  }

  /** `Sqrt` is strictly increasing, as a lemma to name at a call site. */
  lemma SqrtLess(a: real, b: real)
    requires 0.0 <= a < b
    ensures Sqrt(a) < Sqrt(b)
  {
    assert IsSquareRoot(Sqrt);
  }
}
