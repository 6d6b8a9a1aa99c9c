/**
 * `Vector4<T>`: a four-component vector. The `const` members of the C++
 * class are member functions of the value type `Vec4`; the members that
 * overwrite `x`, `y`, `z` and `w` in place are methods of the class
 * `Vector4`. The static mirrors are declared but never defined by the
 * library, so they have no counterpart here.
 */
module Vector4 {
  import opened Scalar
  import opened FloatComparator

  datatype Vec4 = Vec4(x: real, y: real, z: real, w: real)
  {
    /** `operator+`: the zero vector is its identity. */
    function Add(v: Vec4): (r: Vec4)
      ensures v == Zero ==> r == this
    {
      Vec4(x + v.x, y + v.y, z + v.z, w + v.w)
    }

    /** `operator-` (binary): undoes `Add`. */
    function Sub(v: Vec4): (r: Vec4)
      ensures r.Add(v) == this
      ensures r == Add(v.Neg())
      ensures r == Zero <==> this == v
    {
      Vec4(x - v.x, y - v.y, z - v.z, w - v.w)
    }

    /** `operator*` with the scalar on the right: 1 keeps the vector, 0 annihilates it. */
    function Scale(scalar: real): (r: Vec4)
      ensures scalar == 1.0 ==> r == this
      ensures scalar == 0.0 ==> r == Zero
    {
      Vec4(x * scalar, y * scalar, z * scalar, w * scalar)
    }

    /** `operator/`: divides when the divisor exceeds machine epsilon, else gives the zero vector. */
    function Div(scalar: real): (r: Vec4)
      ensures Abs(scalar) <= EPS ==> r == Zero
    {
      if Abs(scalar) > EPS then Vec4(x / scalar, y / scalar, z / scalar, w / scalar) else Zero
    }

    /** `operator-` (unary): the additive inverse. */
    function Neg(): (r: Vec4)
      ensures r.Add(this) == Zero
    {
      Vec4(-x, -y, -z, -w)
    }

    /** `operator==`: every component pair passes the comparator with `5 * EPS`. */
    function Equal(v: Vec4): (r: bool)
      ensures this == v ==> r
    {
      var comparator := FloatComparator(EqualityEpsilon);
      comparator.Compare(x, v.x) && comparator.Compare(y, v.y)
        && comparator.Compare(z, v.z) && comparator.Compare(w, v.w)
    }

    /** `operator!=`. */
    function NotEqual(v: Vec4): (r: bool)
      ensures r == !Equal(v)
    {
      var comparator := FloatComparator(EqualityEpsilon);
      !comparator.Compare(x, v.x) || !comparator.Compare(y, v.y)
        || !comparator.Compare(z, v.z) || !comparator.Compare(w, v.w)
    }

    /** `LengthSquared()`. */
    function LengthSquared(): (r: real)
      ensures r == Dot(this)
      ensures 0.0 <= r
    {
      SquareNonNegative(x);
      SquareNonNegative(y);
      SquareNonNegative(z);
      SquareNonNegative(w);
      x * x + y * y + z * z + w * w
    }

    /** `Length()`: the square root of `LengthSquared()`. */
    function Length(): (r: real)
      ensures 0.0 <= r
      ensures r == 0.0 <==> this == Zero
      ensures LengthSquared() == 1.0 ==> r == 1.0
    {
      SqrtZeroIff(LengthSquared());
      LengthSquaredZeroIff(this);
      Sqrt(LengthSquared())
    }

    /** `Normalized()`: `this / Length()`, or the zero vector when the length is at most `EPS`. */
    function Normalized(): (r: Vec4)
      ensures Length() <= EPS ==> r == Zero
    {
      var length := Length();
      if length > EPS then Div(length) else Zero
    }

    /** `Dot(v)`: zero against the zero vector. */
    function Dot(v: Vec4): (r: real)
      ensures this == Zero || v == Zero ==> r == 0.0
    {
      x * v.x + y * v.y + z * v.z + w * v.w
    }

    /** `Cross(v)`: the cross product of the `xyz` parts, with `w` set to zero. */
    function Cross(v: Vec4): (r: Vec4)
      ensures r.Dot(this) == 0.0 && r.Dot(v) == 0.0
      ensures v == this ==> r == Zero
      ensures r.w == 0.0
    {
      Vec4(y * v.z - z * v.y, z * v.x - x * v.z, x * v.y - y * v.x, 0.0)
    }

    /** `DistanceTo(v)`: the length of the difference. */
    function DistanceTo(v: Vec4): (r: real)
      ensures 0.0 <= r
      ensures r == 0.0 <==> this == v
    {
      Sub(v).Length()
    }

    /**
     * `Projected(v)`: zero when `|v|^2 < EPS`; otherwise `v` scaled by
     * `Dot(v) / |v|^2`, the quotient taken first and without a guard.
     */
    function Projected(v: Vec4): (r: Vec4)
      ensures v.LengthSquared() < EPS ==> r == Zero
      ensures v.LengthSquared() >= EPS ==> Sub(r).Dot(v) == 0.0
      ensures v.LengthSquared() >= EPS ==> r.Cross(v) == Zero
    {
      var lengthSquared := v.LengthSquared();
      if lengthSquared < EPS then Zero
      else
        var k := Dot(v) / lengthSquared;
        ProjectionResidualOrthogonal(this, v, k);
        v.Scale(k)
    }

    /** `Lerp(v, t)`: `this * (1 - t) + v * t`, unclamped. */
    function Lerp(v: Vec4, t: real): (r: Vec4)
      ensures r == Add(v.Sub(this).Scale(t))
      ensures t == 0.0 ==> r == this
      ensures t == 1.0 ==> r == v
    {
      Scale(1.0 - t).Add(v.Scale(t))
    }

    /**
     * `Reflected(normal)`: subtracts twice the component along the
     * normalised normal; a normal of length at most `EPS` changes nothing.
     */
    function Reflected(normal: Vec4): (r: Vec4)
      ensures normal.Length() <= EPS ==> r == this
    {
      var n := normal.Normalized();
      Sub(ScalarTimes(2.0 * Dot(n), n))
    }
  }

  /** `Vector4<T>::Zero()`, also the default-constructed vector. */
  const Zero: Vec4 := Vec4(0.0, 0.0, 0.0, 0.0)

  /** `Vector4<T>::One()`. */
  const One: Vec4 := Vec4(1.0, 1.0, 1.0, 1.0)

  /** `Vector4<T>::UnitX()`. */
  const UnitX: Vec4 := Vec4(1.0, 0.0, 0.0, 0.0)

  /** `Vector4<T>::UnitY()`. */
  const UnitY: Vec4 := Vec4(0.0, 1.0, 0.0, 0.0)

  /** `Vector4<T>::UnitZ()`. */
  const UnitZ: Vec4 := Vec4(0.0, 0.0, 1.0, 0.0)

  /** `Vector4<T>::UnitW()`. */
  const UnitW: Vec4 := Vec4(0.0, 0.0, 0.0, 1.0)

  /** The friend `operator*(T scalar, const Vector4<T>& v)`. */
  function ScalarTimes(scalar: real, v: Vec4): (r: Vec4)
    ensures r == v.Scale(scalar)
  {
    Vec4(v.x * scalar, v.y * scalar, v.z * scalar, v.w * scalar)
  }

  /** `Dot`, component by component. */
  lemma DotComponents(a: Vec4, b: Vec4)
    ensures a.Dot(b) == a.x * b.x + a.y * b.y + a.z * b.z + a.w * b.w
  {
  }

  /** `Cross`, component by component. */
  lemma CrossComponents(a: Vec4, b: Vec4)
    ensures a.Cross(b) == Vec4(a.y * b.z - a.z * b.y, a.z * b.x - a.x * b.z, a.x * b.y - a.y * b.x, 0.0)
  {
  }

  /** `Scale`, component by component. */
  lemma ScaleComponents(v: Vec4, k: real)
    ensures v.Scale(k) == Vec4(v.x * k, v.y * k, v.z * k, v.w * k)
  {
  }

  /** `Div` above `EPS`, component by component. */
  lemma DivComponents(v: Vec4, s: real)
    requires Abs(s) > EPS
    ensures v.Div(s) == Vec4(v.x / s, v.y / s, v.z / s, v.w / s)
  {
  }

  /** The unit vectors have length 1 and are pairwise orthogonal; `One` has squared length 4 and is their sum. */
  lemma UnitVectors()
    ensures UnitX.Length() == 1.0 && UnitY.Length() == 1.0
    ensures UnitZ.Length() == 1.0 && UnitW.Length() == 1.0
    ensures UnitX.Dot(UnitY) == 0.0 && UnitX.Dot(UnitZ) == 0.0 && UnitX.Dot(UnitW) == 0.0
    ensures UnitY.Dot(UnitZ) == 0.0 && UnitY.Dot(UnitW) == 0.0 && UnitZ.Dot(UnitW) == 0.0
    ensures One.LengthSquared() == 4.0
    ensures UnitX.Add(UnitY).Add(UnitZ).Add(UnitW) == One
  {
    DotComponents(UnitX, UnitX);
    DotComponents(UnitY, UnitY);
    DotComponents(UnitZ, UnitZ);
    DotComponents(UnitW, UnitW);
    DotComponents(One, One);
    DotComponents(UnitX, UnitY);
    DotComponents(UnitX, UnitZ);
    DotComponents(UnitX, UnitW);
    DotComponents(UnitY, UnitZ);
    DotComponents(UnitY, UnitW);
    DotComponents(UnitZ, UnitW);
  }

  /** The squared length is zero only for the zero vector. */
  lemma LengthSquaredZeroIff(v: Vec4)
    ensures v.LengthSquared() == 0.0 <==> v == Zero
  {
    SquareNonNegative(v.x);
    SquareNonNegative(v.y);
    SquareNonNegative(v.z);
    SquareNonNegative(v.w);
    SquareZeroIff(v.x);
    SquareZeroIff(v.y);
    SquareZeroIff(v.z);
    SquareZeroIff(v.w);
  }

  /** Above `EPS`, scaling undoes dividing: `v / s * s == v`. */
  lemma ScaleUndoesDiv(v: Vec4, s: real)
    requires Abs(s) > EPS
    ensures v.Div(s).Scale(s) == v
  {
    var q := v.Div(s);
    DivComponents(v, s);
    ScaleComponents(q, s);
    DivMulCancel(v.x, s);
    DivMulCancel(v.y, s);
    DivMulCancel(v.z, s);
    DivMulCancel(v.w, s);
  }

  /** A vector longer than `EPS` is its normalised form scaled by its length. */
  lemma NormalizedScalesBack(v: Vec4)
    requires v.Length() > EPS
    ensures v.Normalized().Scale(v.Length()) == v
  {
    ScaleUndoesDiv(v, v.Length());
  }

  /** Above `EPS`, the guarded quotient `v * d / s` is `v` scaled by `d / s`. */
  lemma ScaleThenDivide(v: Vec4, d: real, s: real)
    requires s > EPS
    ensures v.Scale(d).Div(s) == v.Scale(d / s)
  {
    var u := v.Scale(d);
    ScaleComponents(v, d);
    DivComponents(u, s);
    ScaleComponents(v, d / s);
    DivOfProduct(u.x, v.x, d, s);
    DivOfProduct(u.y, v.y, d, s);
    DivOfProduct(u.z, v.z, d, s);
    DivOfProduct(u.w, v.w, d, s);
  }

  /** Removing `k` times `v` from `a` removes `k |v|^2` from `a . v`. */
  lemma ResidualDot(a: Vec4, v: Vec4, k: real)
    ensures a.Sub(v.Scale(k)).Dot(v) == a.Dot(v) - k * v.LengthSquared()
  {
    var r := v.Scale(k);
    ScaleComponents(v, k);
    var e := a.Sub(r);
    assert e == Vec4(a.x - v.x * k, a.y - v.y * k, a.z - v.z * k, a.w - v.w * k);
    DotComponents(e, v);
    DotComponents(a, v);
    DotComponents(v, v);
    ResidualArithmetic(a.x, a.y, a.z, a.w, v.x, v.y, v.z, v.w, k);
  }

  lemma ResidualArithmetic(ax: real, ay: real, az: real, aw: real, vx: real, vy: real, vz: real, vw: real, k: real)
    ensures (ax - vx * k) * vx + (ay - vy * k) * vy + (az - vz * k) * vz + (aw - vw * k) * vw
         == (ax * vx + ay * vy + az * vz + aw * vw) - k * (vx * vx + vy * vy + vz * vz + vw * vw)
  {
  }

  /** A multiple of `v` has a zero cross product with `v`. */
  lemma ParallelCross(v: Vec4, k: real)
    ensures v.Scale(k).Cross(v) == Zero
  {
    var r := v.Scale(k);
    ScaleComponents(v, k);
    CrossComponents(r, v);
    assert v.x * k * v.y - v.y * k * v.x == 0.0;
    assert v.y * k * v.z - v.z * k * v.y == 0.0;
    assert v.z * k * v.x - v.x * k * v.z == 0.0;
  }

  /** Removing the projection of `a` onto `v` leaves a residual orthogonal to `v`, and the projection is parallel to `v`. */
  lemma ProjectionResidualOrthogonal(a: Vec4, v: Vec4, k: real)
    requires v.LengthSquared() != 0.0 && k == a.Dot(v) / v.LengthSquared()
    ensures a.Sub(v.Scale(k)).Dot(v) == 0.0
    ensures v.Scale(k).Cross(v) == Zero
  {
    var s, d := v.LengthSquared(), a.Dot(v);
    ResidualDot(a, v, k);
    DivMulCancel(d, s);
    assert k * s == d;
    ParallelCross(v, k);
  }

  /**
   * The expression of the in-place `Project`, `v * Dot(v) / |v|^2` with the
   * guarded division, for `|v|^2 >= EPS`: zero at `|v|^2 == EPS`, and
   * `Projected(v)` above it.
   */
  lemma GuardedProjection(a: Vec4, v: Vec4)
    requires v.LengthSquared() >= EPS
    ensures v.Scale(a.Dot(v)).Div(v.LengthSquared())
         == if v.LengthSquared() == EPS then Zero else a.Projected(v)
  {
    var s, d := v.LengthSquared(), a.Dot(v);
    if s > EPS {
      assert a.Projected(v) == v.Scale(d / s);
      ScaleThenDivide(v, d, s);
    }
  }

  /** The expression the in-place `Reflect` subtracts. */
  lemma ReflectedUnfold(a: Vec4, normal: Vec4, d: Vec4)
    requires d == ScalarTimes(2.0 * a.Dot(normal.Normalized()), normal.Normalized())
    ensures a.Reflected(normal) == a.Sub(d)
  {
  }

  /**
   * A `Vector4<T>` object: the fields `x`, `y`, `z` and `w`, overwritten in
   * place by the compound operators, `Normalize`, `Project` and `Reflect`.
   * Vector arguments are references (`const Vector4<T>&`) and may be `this`.
   */
  class Vector4 {
    var x: real
    var y: real
    var z: real
    var w: real

    /** The value currently held. */
    function Value(): Vec4
      reads this
    {
      Vec4(x, y, z, w)
    }

    /** `Vector4()`. */
    constructor ()
      ensures Value() == Zero
    {
      x, y, z, w := 0.0, 0.0, 0.0, 0.0;
    }

    /** `Vector4(x)`: `y`, `z` and `w` are zero. */
    constructor FromX(x: real)
      ensures Value() == Vec4(x, 0.0, 0.0, 0.0)
    {
      this.x, this.y, this.z, this.w := x, 0.0, 0.0, 0.0;
    }

    /** `Vector4(x, y)`: `z` and `w` are zero. */
    constructor FromXY(x: real, y: real)
      ensures Value() == Vec4(x, y, 0.0, 0.0)
    {
      this.x, this.y, this.z, this.w := x, y, 0.0, 0.0;
    }

    /** `Vector4(x, y, z)`: `w` is zero. */
    constructor FromXYZ(x: real, y: real, z: real)
      ensures Value() == Vec4(x, y, z, 0.0)
    {
      this.x, this.y, this.z, this.w := x, y, z, 0.0;
    }

    /** `Vector4(x, y, z, w)`. */
    constructor FromXYZW(x: real, y: real, z: real, w: real)
      ensures Value() == Vec4(x, y, z, w)
    {
      this.x, this.y, this.z, this.w := x, y, z, w;
    }

    /** The implicit copy assignment `*this = v`. */
    method Assign(v: Vec4)
      modifies this
      ensures Value() == v
    {
      x, y, z, w := v.x, v.y, v.z, v.w;
    }

    /** `operator+=`. */
    method AddAssign(v: Vector4)
      modifies this
      ensures Value() == old(Value()).Add(old(v.Value()))
    {
      x := x + v.x;
      y := y + v.y;
      z := z + v.z;
      w := w + v.w;
    }

    /** `operator-=`. */
    method SubAssign(v: Vector4)
      modifies this
      ensures Value() == old(Value()).Sub(old(v.Value()))
    {
      x := x - v.x;
      y := y - v.y;
      z := z - v.z;
      w := w - v.w;
    }

    /** `operator*=`. */
    method MulAssign(scalar: real)
      modifies this
      ensures Value() == old(Value()).Scale(scalar)
    {
      x := x * scalar;
      y := y * scalar;
      z := z * scalar;
      w := w * scalar;
    }

    /** `operator/=`: divides in place, or zeroes every field when `|scalar| <= EPS`. */
    method DivAssign(scalar: real)
      modifies this
      ensures Value() == old(Value()).Div(scalar)
      ensures Abs(scalar) <= EPS ==> x == 0.0 && y == 0.0 && z == 0.0 && w == 0.0
    {
      if Abs(scalar) > EPS {
        x := x / scalar;
        y := y / scalar;
        z := z / scalar;
        w := w / scalar;
      } else {
        x, y, z, w := 0.0, 0.0, 0.0, 0.0;
      }
    }

    /** `Normalize()`: leaves the object equal to `Normalized()`; a length at most `EPS` zeroes every field. */
    method Normalize()
      modifies this
      ensures Value() == old(Value()).Normalized()
      ensures old(Value()).Length() <= EPS ==> x == 0.0 && y == 0.0 && z == 0.0 && w == 0.0
    {
      var length := Value().Length();
      if length > EPS {
        DivAssign(length);
      } else {
        x, y, z, w := 0.0, 0.0, 0.0, 0.0;
      }
    }

    /**
     * `Project(v)`: `*this = v * Dot(v) / |v|^2`, the division being the
     * guarded `operator/`. The result equals `Projected(v)` except when
     * `|v|^2 == EPS`, where the guard yields the zero vector.
     */
    method Project(v: Vector4)
      modifies this
      ensures var u := old(v.Value());
        Value() == if u.LengthSquared() <= EPS then Zero else old(Value()).Projected(u)
    {
      var u := v.Value();
      var lengthSquared := u.LengthSquared();
      if lengthSquared < EPS {
        Assign(Zero);
      } else {
        GuardedProjection(Value(), u);
        Assign(u.Scale(Value().Dot(u)).Div(lengthSquared));
      }
    }

    /** `Reflect(normal)`: `*this -= 2 * Dot(n) * n` with `n = normal.Normalized()`. */
    method Reflect(normal: Vector4)
      modifies this
      ensures Value() == old(Value()).Reflected(old(normal.Value()))
    {
      var n := normal.Value().Normalized();
      var d := ScalarTimes(2.0 * Value().Dot(n), n);
      ReflectedUnfold(Value(), normal.Value(), d);
      var term := new Vector4.FromXYZW(d.x, d.y, d.z, d.w);
      SubAssign(term);
    }
  }

  // Properties relating several operations.

  /** `Dot` is symmetric. */
  lemma DotSymmetric(a: Vec4, b: Vec4)
    ensures a.Dot(b) == b.Dot(a)
  {
  }

  /** `Dot` distributes over `Add` in its first argument. */
  lemma DotAddDistributes(a: Vec4, b: Vec4, c: Vec4)
    ensures a.Add(b).Dot(c) == a.Dot(c) + b.Dot(c)
  {
  }

  /** `Cross` always has `w == 0` and does not depend on the `w` of either operand. */
  lemma CrossIgnoresW(a: Vec4, b: Vec4, aw: real, bw: real)
    ensures a.Cross(b).w == 0.0
    ensures a.Cross(b) == Vec4(a.x, a.y, a.z, aw).Cross(Vec4(b.x, b.y, b.z, bw))
  {
  }

  /** `Cross` is antisymmetric, and zero for equal vectors. */
  lemma CrossAntisymmetric(a: Vec4, b: Vec4)
    ensures a.Cross(b) == b.Cross(a).Neg()
    ensures a.Cross(a) == Zero
  {
  }

  /** `a x b` is orthogonal to both `a` and `b`, whatever their `w`. */
  lemma CrossOrthogonal(a: Vec4, b: Vec4)
    ensures a.Cross(b).Dot(a) == 0.0
    ensures a.Cross(b).Dot(b) == 0.0
  {
  }

  /** The `xyz` unit vectors form a right-handed basis; `UnitW` crosses to zero. */
  lemma UnitCrossProducts()
    ensures UnitX.Cross(UnitY) == UnitZ
    ensures UnitY.Cross(UnitZ) == UnitX
    ensures UnitZ.Cross(UnitX) == UnitY
    ensures UnitW.Cross(UnitX) == Zero
  {
    CrossComponents(UnitX, UnitY);
    CrossComponents(UnitY, UnitZ);
    CrossComponents(UnitZ, UnitX);
    CrossComponents(UnitW, UnitX);
  }

  /** Above `EPS`, dividing undoes scaling: `v * s / s == v`. */
  lemma ScaleDivRoundTrip(v: Vec4, s: real)
    requires Abs(s) > EPS
    ensures v.Scale(s).Div(s) == v
  {
    var p := v.Scale(s);
    ScaleComponents(v, s);
    DivComponents(p, s);
    ProductDivCancel(p.x, v.x, s);
    ProductDivCancel(p.y, v.y, s);
    ProductDivCancel(p.z, v.z, s);
    ProductDivCancel(p.w, v.w, s);
  }

  /** `==` holds of every vector and itself, is symmetric, and `!=` is its negation. */
  lemma EqualityLaws(a: Vec4, b: Vec4)
    ensures a.Equal(a)
    ensures a.Equal(b) == b.Equal(a)
    ensures a.NotEqual(b) == !a.Equal(b)
  {
    var c := FloatComparator(EqualityEpsilon);
    CompareSymmetric(c, a.x, b.x);
    CompareSymmetric(c, a.y, b.y);
    CompareSymmetric(c, a.z, b.z);
    CompareSymmetric(c, a.w, b.w);
  }

  /** Vectors `==` each other only when their zero components and signs agree. */
  lemma EqualKeepsSigns(a: Vec4, b: Vec4)
    requires a.Equal(b)
    ensures (a.x == 0.0 <==> b.x == 0.0) && (a.x < 0.0 <==> b.x < 0.0)
    ensures (a.y == 0.0 <==> b.y == 0.0) && (a.y < 0.0 <==> b.y < 0.0)
    ensures (a.z == 0.0 <==> b.z == 0.0) && (a.z < 0.0 <==> b.z < 0.0)
    ensures (a.w == 0.0 <==> b.w == 0.0) && (a.w < 0.0 <==> b.w < 0.0)
  {
    var c := FloatComparator(EqualityEpsilon);
    EqualityEpsilonBelowOne();
    CompareKeepsSign(c, a.x, b.x);
    CompareKeepsSign(c, a.y, b.y);
    CompareKeepsSign(c, a.z, b.z);
    CompareKeepsSign(c, a.w, b.w);
  }

  /** `DistanceTo` is symmetric. */
  lemma DistanceSymmetric(a: Vec4, b: Vec4)
    ensures a.DistanceTo(b) == b.DistanceTo(a)
  {
    assert a.Sub(b).LengthSquared() == b.Sub(a).LengthSquared();
  }

  /** Projecting onto the zero vector gives the zero vector. */
  lemma ProjectedOntoZero(a: Vec4)
    ensures a.Projected(Zero) == Zero
  {
  }

  /** The dot product of `k v` with `v` is `k |v|^2`. */
  lemma ScaleDot(v: Vec4, k: real)
    ensures v.Scale(k).Dot(v) == k * v.LengthSquared()
  {
    ResidualDot(Zero, v, k);
    assert Zero.Sub(v.Scale(k)) == v.Scale(k).Neg();
    ScaleComponents(v, k);
    DotComponents(v.Scale(k), v);
    DotComponents(v.Scale(k).Neg(), v);
  }

  /** Projecting a projection again onto the same vector changes nothing. */
  lemma ProjectedIdempotent(a: Vec4, v: Vec4)
    ensures a.Projected(v).Projected(v) == a.Projected(v)
  {
    var s := v.LengthSquared();
    if s >= EPS {
      var k := a.Dot(v) / s;
      var r := v.Scale(k);
      assert a.Projected(v) == r;
      ScaleDot(v, k);
      ProductDivCancel(r.Dot(v), k, s);
      assert r.Dot(v) / s == k;
    }
  }

  /**
   * Above `EPS`, the projection is the one multiple of `v` whose residual is
   * orthogonal to `v`, so the two conditions of `Projected`'s contract that
   * do not mention the cross product already determine it.
   */
  lemma ProjectedIsOrthogonalMultiple(a: Vec4, v: Vec4, k: real)
    requires v.LengthSquared() >= EPS
    requires a.Sub(v.Scale(k)).Dot(v) == 0.0
    ensures a.Projected(v) == v.Scale(k)
  {
    var s := v.LengthSquared();
    ResidualDot(a, v, k);
    ProductDivCancel(a.Dot(v), k, s);
  }

  /**
   * Where the in-place form and the value form of projection part: at
   * `|v|^2 == EPS` the guarded division of `Project` gives the zero vector,
   * while `Projected` returns `v` itself for `v.Projected(v)`.
   */
  lemma ProjectionsDisagreeAtEpsilon(v: Vec4)
    requires v.LengthSquared() == EPS
    ensures v.Scale(v.Dot(v)).Div(v.LengthSquared()) == Zero
    ensures v.Projected(v) == v && v != Zero
  {
    GuardedProjection(v, v);
    LengthSquaredZeroIff(v);
    assert v.Dot(v) / v.LengthSquared() == 1.0;
    ScaleComponents(v, 1.0);
  }

  /** The midpoint: `Lerp(v, 0.5)` averages the components. */
  lemma LerpMidpoint(a: Vec4, b: Vec4)
    ensures a.Lerp(b, 0.5)
         == Vec4((a.x + b.x) / 2.0, (a.y + b.y) / 2.0, (a.z + b.z) / 2.0, (a.w + b.w) / 2.0)
  {
  }

  /** A vector of squared length 1 is its own normalised form. */
  lemma NormalizedOfUnit(v: Vec4)
    requires v.LengthSquared() == 1.0
    ensures v.Normalized() == v
  {
    assert v.Length() == 1.0;
    DivComponents(v, 1.0);
  }

  /** Reflecting twice across a unit normal restores the vector. */
  lemma ReflectAcrossUnitInvolutive(v: Vec4, normal: Vec4)
    requires normal.LengthSquared() == 1.0
    ensures v.Reflected(normal).Reflected(normal) == v
  {
    var n := normal;
    NormalizedOfUnit(n);
    var d := v.Dot(n);
    var r := v.Reflected(n);
    assert r == v.Sub(n.Scale(2.0 * d));
    ResidualDot(v, n, 2.0 * d);
    assert r.Dot(n) == -d;
    var r2 := r.Reflected(n);
    assert r2 == r.Sub(n.Scale(2.0 * -d));
    ScaleComponents(n, 2.0 * d);
    ScaleComponents(n, 2.0 * -d);
  }

  /** Projecting onto a unit vector scales it by the dot product. */
  lemma ProjectedOntoUnit(a: Vec4, n: Vec4)
    requires n.LengthSquared() == 1.0
    ensures a.Projected(n) == n.Scale(a.Dot(n))
  {
    ScaleThenDivide(n, a.Dot(n), 1.0);
  }

  /** Scaling twice is scaling by the product. */
  lemma ScaleScale(v: Vec4, a: real, b: real)
    ensures v.Scale(a).Scale(b) == v.Scale(a * b)
  {
    ScaleComponents(v, a);
    ScaleComponents(v.Scale(a), b);
    ScaleComponents(v, a * b);
  }

  /**
   * Reflecting across a unit normal negates the component along it and keeps
   * the rest: it subtracts twice the projection onto the normal.
   */
  lemma ReflectedAcrossUnitNormal(v: Vec4, n: Vec4)
    requires n.LengthSquared() == 1.0
    ensures v.Reflected(n).Dot(n) == -v.Dot(n)
    ensures v.Reflected(n) == v.Sub(v.Projected(n).Scale(2.0))
  {
    NormalizedOfUnit(n);
    var d := v.Dot(n);
    assert v.Reflected(n) == v.Sub(n.Scale(2.0 * d));
    ResidualDot(v, n, 2.0 * d);
    ProjectedOntoUnit(v, n);
    ScaleScale(n, d, 2.0);
  }

  /**
   * `ReflectedAcrossUnitNormal` for any normal whose normalised form has unit
   * length, which `NormalizedHasUnitLength` gives for every normal longer than
   * `EPS` under an exact square root: reflecting across `normal` is reflecting
   * across its normalised form.
   */
  lemma ReflectedNegatesNormal(v: Vec4, normal: Vec4)
    requires normal.Normalized().LengthSquared() == 1.0
    ensures var n := normal.Normalized();
      v.Reflected(normal).Dot(n) == -v.Dot(n) && v.Reflected(normal) == v.Sub(v.Projected(n).Scale(2.0))
  {
    var n := normal.Normalized();
    NormalizedOfUnit(n);
    assert v.Reflected(normal) == v.Reflected(n);
    ReflectedAcrossUnitNormal(v, n);
  }

  /** With an exact square root, `Normalized()` of a vector longer than `EPS` has length 1. */
  lemma NormalizedHasUnitLength(v: Vec4)
    requires SqrtIsExact()
    requires v.Length() > EPS
    ensures v.Normalized().LengthSquared() == 1.0
    ensures v.Normalized().Length() == 1.0
  {
    var s, length := v.LengthSquared(), v.Length();
    assert length * length == s;
    var n := v.Normalized();
    DivComponents(v, length);
    assert n == Vec4(v.x / length, v.y / length, v.z / length, v.w / length);
    DotComponents(n, n);
    DotComponents(v, v);
    assert n.LengthSquared() == (v.x * v.x + v.y * v.y + v.z * v.z + v.w * v.w) / (length * length);
  }

  /** With an exact square root, normalising a normalised vector changes nothing. */
  lemma NormalizedIdempotent(v: Vec4)
    requires SqrtIsExact()
    ensures v.Normalized().Normalized() == v.Normalized()
  {
    var n := v.Normalized();
    if v.Length() > EPS {
      NormalizedHasUnitLength(v);
      NormalizedOfUnit(n);
    } else {
      assert n == Zero;
      assert n.LengthSquared() == 0.0;
    }
  }

  /** With an exact square root, reflecting twice across any normal restores the vector. */
  lemma ReflectedInvolutive(v: Vec4, normal: Vec4)
    requires SqrtIsExact()
    ensures v.Reflected(normal).Reflected(normal) == v
  {
    var n := normal.Normalized();
    NormalizedIdempotent(normal);
    var r := v.Reflected(normal);
    assert r == v.Reflected(n);
    assert r.Reflected(normal) == r.Reflected(n);
    if normal.Length() > EPS {
      NormalizedHasUnitLength(normal);
      ReflectAcrossUnitInvolutive(v, n);
    } else {
      assert n == Zero;
    }
  }
}
