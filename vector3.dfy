/**
 * `Vector3<T>`: a three-component vector. The `const` members of the C++
 * class are member functions of the value type `Vec3`; the members that
 * overwrite `x`, `y` and `z` in place are methods of the class `Vector3`.
 */
module Vector3 {
  import opened Scalar
  import opened FloatComparator

  datatype Vec3 = Vec3(x: real, y: real, z: real)
  {
    /** `operator+`: the zero vector is its identity. */
    function Add(v: Vec3): (r: Vec3)
      ensures v == Zero ==> r == this
    {
      Vec3(x + v.x, y + v.y, z + v.z)
    }

    /** `operator-` (binary): undoes `Add`. */
    function Sub(v: Vec3): (r: Vec3)
      ensures r.Add(v) == this
      ensures r == Add(v.Neg())
      ensures r == Zero <==> this == v
    {
      Vec3(x - v.x, y - v.y, z - v.z)
    }

    /** `operator*` with the scalar on the right: 1 keeps the vector, 0 annihilates it. */
    function Scale(scalar: real): (r: Vec3)
      ensures scalar == 1.0 ==> r == this
      ensures scalar == 0.0 ==> r == Zero
    {
      Vec3(x * scalar, y * scalar, z * scalar)
    }

    /** `operator/`: divides when the divisor exceeds machine epsilon, else gives the zero vector. */
    function Div(scalar: real): (r: Vec3)
      ensures Abs(scalar) <= EPS ==> r == Zero
    {
      if Abs(scalar) > EPS then Vec3(x / scalar, y / scalar, z / scalar) else Zero
    }

    /** `operator-` (unary): the additive inverse. */
    function Neg(): (r: Vec3)
      ensures r.Add(this) == Zero
    {
      Vec3(-x, -y, -z)
    }

    /** `operator==`: every component pair passes the comparator with `5 * EPS`. */
    function Equal(v: Vec3): (r: bool)
      ensures this == v ==> r
    {
      var comparator := FloatComparator(EqualityEpsilon);
      comparator.Compare(x, v.x) && comparator.Compare(y, v.y) && comparator.Compare(z, v.z)
    }

    /** `operator!=`. */
    function NotEqual(v: Vec3): (r: bool)
      ensures r == !Equal(v)
    {
      var comparator := FloatComparator(EqualityEpsilon);
      !comparator.Compare(x, v.x) || !comparator.Compare(y, v.y) || !comparator.Compare(z, v.z)
    }

    /** `LengthSquared()`. */
    function LengthSquared(): (r: real)
      ensures r == Dot(this)
      ensures 0.0 <= r
    {
      SquareNonNegative(x);
      SquareNonNegative(y);
      SquareNonNegative(z);
      x * x + y * y + z * z
    }

    /** `Length()`: the square root of `LengthSquared()`. */
    function Length(): (r: real)
      ensures 0.0 <= r
      ensures r == 0.0 <==> this == Zero
      ensures LengthSquared() == 1.0 ==> r == 1.0
    {
      SqrtZeroIff(LengthSquared());
      LengthSquaredZeroIff(this);
      Sqrt(LengthSquared())
    }

    /** `Normalized()`: `this / Length()`, or the zero vector when the length is at most `EPS`. */
    function Normalized(): (r: Vec3)
      ensures Length() <= EPS ==> r == Zero
    {
      var length := Length();
      if length > EPS then Div(length) else Zero
    }

    /** `Dot(v)`: zero against the zero vector. */
    function Dot(v: Vec3): (r: real)
      ensures this == Zero || v == Zero ==> r == 0.0
    {
      x * v.x + y * v.y + z * v.z
    }

    /** `Cross(v)`: the right-handed cross product, orthogonal to both operands. */
    function Cross(v: Vec3): (r: Vec3)
      ensures r.Dot(this) == 0.0 && r.Dot(v) == 0.0
      ensures v == this ==> r == Zero
    {
      Vec3(y * v.z - z * v.y, z * v.x - x * v.z, x * v.y - y * v.x)
    }

    /** `DistanceTo(v)`: the length of the difference. */
    function DistanceTo(v: Vec3): (r: real)
      ensures 0.0 <= r
      ensures r == 0.0 <==> this == v
    {
      Sub(v).Length()
    }

    /**
     * `Projected(v)`: zero when `|v|^2 < EPS`; otherwise `v * Dot(v) / |v|^2`
     * with the guarded `operator/`, which also gives zero at `|v|^2 == EPS`.
     */
    function Projected(v: Vec3): (r: Vec3)
      ensures v.LengthSquared() <= EPS ==> r == Zero
      ensures v.LengthSquared() > EPS ==> Sub(r).Dot(v) == 0.0
      ensures v.LengthSquared() > EPS ==> r.Cross(v) == Zero
    {
      var lengthSquared := v.LengthSquared();
      if lengthSquared < EPS then Zero
      else
        var r := v.Scale(Dot(v)).Div(lengthSquared);
        if lengthSquared > EPS then
          ProjectionProperties(this, v, r);
          r
        else
          r
    }

    /** `Lerp(v, t)`: `(1 - t) * this + t * v`, unclamped. */
    function Lerp(v: Vec3, t: real): (r: Vec3)
      ensures r == Add(v.Sub(this).Scale(t))
      ensures t == 0.0 ==> r == this
      ensures t == 1.0 ==> r == v
    {
      ScalarTimes(1.0 - t, this).Add(ScalarTimes(t, v))
    }

    /**
     * `Reflected(normal)`: subtracts twice the component along the
     * normalised normal; a normal of length at most `EPS` changes nothing.
     */
    function Reflected(normal: Vec3): (r: Vec3)
      ensures normal.Length() <= EPS ==> r == this
    {
      var n := normal.Normalized();
      Sub(ScalarTimes(2.0 * Dot(n), n))
    }
  }

  /** `Vector3<T>::Zero()`, also the default-constructed vector. */
  const Zero: Vec3 := Vec3(0.0, 0.0, 0.0)

  /** `Vector3<T>::One()`. */
  const One: Vec3 := Vec3(1.0, 1.0, 1.0)

  /** `Vector3<T>::UnitX()`. */
  const UnitX: Vec3 := Vec3(1.0, 0.0, 0.0)

  /** `Vector3<T>::UnitY()`. */
  const UnitY: Vec3 := Vec3(0.0, 1.0, 0.0)

  /** `Vector3<T>::UnitZ()`. */
  const UnitZ: Vec3 := Vec3(0.0, 0.0, 1.0)

  /** The unit vectors have length 1, are pairwise orthogonal, and `One` has squared length 3. */
  lemma UnitVectors()
    ensures UnitX.Length() == 1.0 && UnitY.Length() == 1.0 && UnitZ.Length() == 1.0
    ensures UnitX.Dot(UnitY) == 0.0 && UnitY.Dot(UnitZ) == 0.0 && UnitZ.Dot(UnitX) == 0.0
    ensures One.LengthSquared() == 3.0
    ensures UnitX.Add(UnitY).Add(UnitZ) == One
  {
    DotComponents(UnitX, UnitX);
    DotComponents(UnitY, UnitY);
    DotComponents(UnitZ, UnitZ);
    DotComponents(One, One);
    DotComponents(UnitX, UnitY);
    DotComponents(UnitY, UnitZ);
    DotComponents(UnitZ, UnitX);
  }

  /** `Dot`, component by component. */
  lemma DotComponents(a: Vec3, b: Vec3)
    ensures a.Dot(b) == a.x * b.x + a.y * b.y + a.z * b.z
  {
  }

  /** `Cross`, component by component. */
  lemma CrossComponents(a: Vec3, b: Vec3)
    ensures a.Cross(b) == Vec3(a.y * b.z - a.z * b.y, a.z * b.x - a.x * b.z, a.x * b.y - a.y * b.x)
  {
  }

  /** The friend `operator*(T scalar, const Vector3<T>& v)`. */
  function ScalarTimes(scalar: real, v: Vec3): (r: Vec3)
    ensures r == v.Scale(scalar)
  {
    Vec3(v.x * scalar, v.y * scalar, v.z * scalar)
  }

  /** The squared length is zero only for the zero vector. */
  lemma LengthSquaredZeroIff(v: Vec3)
    ensures v.LengthSquared() == 0.0 <==> v == Zero
  {
    SquareNonNegative(v.x);
    SquareNonNegative(v.y);
    SquareNonNegative(v.z);
    SquareZeroIff(v.x);
    SquareZeroIff(v.y);
    SquareZeroIff(v.z);
  }

  /** Above `EPS`, scaling undoes dividing: `v / s * s == v`. */
  lemma ScaleUndoesDiv(v: Vec3, s: real)
    requires Abs(s) > EPS
    ensures v.Div(s).Scale(s) == v
  {
    var q := v.Div(s);
    assert q == Vec3(v.x / s, v.y / s, v.z / s);
    assert q.Scale(s) == Vec3(v.x / s * s, v.y / s * s, v.z / s * s);
    DivMulCancel(v.x, s);
    DivMulCancel(v.y, s);
    DivMulCancel(v.z, s);
  }

  /** A vector longer than `EPS` is its normalised form scaled by its length. */
  lemma NormalizedScalesBack(v: Vec3)
    requires v.Length() > EPS
    ensures v.Normalized().Scale(v.Length()) == v
  {
    ScaleUndoesDiv(v, v.Length());
  }

  /** Above `EPS`, the guarded quotient `v * d / s` is `v` scaled by `d / s`. */
  lemma ScaleThenDivide(v: Vec3, d: real, s: real)
    requires s > EPS
    ensures v.Scale(d).Div(s) == v.Scale(d / s)
  {
    var w := v.Scale(d);
    ScaleComponents(v, d);
    DivComponents(w, s);
    ScaleComponents(v, d / s);
    DivOfProduct(w.x, v.x, d, s);
    DivOfProduct(w.y, v.y, d, s);
    DivOfProduct(w.z, v.z, d, s);
  }

  /** `Scale`, component by component. */
  lemma ScaleComponents(v: Vec3, k: real)
    ensures v.Scale(k) == Vec3(v.x * k, v.y * k, v.z * k)
  {
  }

  /** `Div` above `EPS`, component by component. */
  lemma DivComponents(v: Vec3, s: real)
    requires Abs(s) > EPS
    ensures v.Div(s) == Vec3(v.x / s, v.y / s, v.z / s)
  {
  }

  /**
   * For `|v|^2 > EPS`, the projection `r` of `a` onto `v` leaves a residual
   * orthogonal to `v` and is parallel to `v`.
   */
  lemma ProjectionProperties(a: Vec3, v: Vec3, r: Vec3)
    requires v.LengthSquared() > EPS && r == v.Scale(a.Dot(v)).Div(v.LengthSquared())
    ensures a.Sub(r).Dot(v) == 0.0
    ensures r.Cross(v) == Zero
  {
    var s := v.LengthSquared();
    var d := a.Dot(v);
    var k := d / s;
    ScaleThenDivide(v, d, s);
    assert r == v.Scale(k);
    ResidualDot(a, v, k);
    DivMulCancel(d, s);
    assert k * s == d;
    ParallelCross(v, k);
  }

  /** Removing `k` times `v` from `a` removes `k |v|^2` from `a . v`. */
  lemma ResidualDot(a: Vec3, v: Vec3, k: real)
    ensures a.Sub(v.Scale(k)).Dot(v) == a.Dot(v) - k * v.LengthSquared()
  {
    var r := v.Scale(k);
    assert r == Vec3(v.x * k, v.y * k, v.z * k);
    var e := a.Sub(r);
    assert e == Vec3(a.x - v.x * k, a.y - v.y * k, a.z - v.z * k);
    DotComponents(e, v);
    DotComponents(a, v);
    ResidualArithmetic(a.x, a.y, a.z, v.x, v.y, v.z, k);
  }

  lemma ResidualArithmetic(ax: real, ay: real, az: real, vx: real, vy: real, vz: real, k: real)
    ensures (ax - vx * k) * vx + (ay - vy * k) * vy + (az - vz * k) * vz
         == (ax * vx + ay * vy + az * vz) - k * (vx * vx + vy * vy + vz * vz)
  {
  }

  /** A multiple of `v` has a zero cross product with `v`. */
  lemma ParallelCross(v: Vec3, k: real)
    ensures v.Scale(k).Cross(v) == Zero
  {
    var r := v.Scale(k);
    assert r == Vec3(v.x * k, v.y * k, v.z * k);
    CrossComponents(r, v);
    assert v.x * k * v.y - v.y * k * v.x == 0.0;
    assert v.y * k * v.z - v.z * k * v.y == 0.0;
    assert v.z * k * v.x - v.x * k * v.z == 0.0;
  }

  /** The expression the in-place `Reflect` subtracts. */
  lemma ReflectedUnfold(a: Vec3, normal: Vec3, d: Vec3)
    requires d == ScalarTimes(2.0 * a.Dot(normal.Normalized()), normal.Normalized())
    ensures a.Reflected(normal) == a.Sub(d)
  {
  }

  // Static mirrors: each forwards to the instance member on its first argument.

  /** Static `Dot(v1, v2)`. */
  function Dot(v1: Vec3, v2: Vec3): (r: real)
    ensures r == v1.Dot(v2) && r == v2.Dot(v1)
  {
    v1.Dot(v2)
  }

  /** Static `Cross(v1, v2)`. */
  function Cross(v1: Vec3, v2: Vec3): (r: Vec3)
    ensures r == v1.Cross(v2) && r == v2.Cross(v1).Neg()
  {
    v1.Cross(v2)
  }

  /** Static `Distance(v1, v2)`. */
  function Distance(v1: Vec3, v2: Vec3): (r: real)
    ensures r == v1.DistanceTo(v2)
  {
    v1.DistanceTo(v2)
  }

  /** Static `Project(v1, v2)`: the value form `Projected`. */
  function Project(v1: Vec3, v2: Vec3): (r: Vec3)
    ensures r == v1.Projected(v2)
  {
    v1.Projected(v2)
  }

  /** Static `Lerp(v1, v2, t)`. */
  function Lerp(v1: Vec3, v2: Vec3, t: real): (r: Vec3)
    ensures r == v1.Lerp(v2, t)
  {
    v1.Lerp(v2, t)
  }

  /** Static `Reflect(v1, normal)`: the value form `Reflected`. */
  function Reflect(v1: Vec3, normal: Vec3): (r: Vec3)
    ensures r == v1.Reflected(normal)
  {
    v1.Reflected(normal)
  }

  /**
   * A `Vector3<T>` object: the fields `x`, `y` and `z`, overwritten in place
   * by the compound operators, `Normalize`, `Project` and `Reflect`. Vector
   * arguments are references (`const Vector3<T>&`) and may be `this`.
   */
  class Vector3 {
    var x: real
    var y: real
    var z: real

    /** The value currently held. */
    function Value(): Vec3
      reads this
    {
      Vec3(x, y, z)
    }

    /** `Vector3()`. */
    constructor ()
      ensures Value() == Zero
    {
      x, y, z := 0.0, 0.0, 0.0;
    }

    /** `Vector3(x)`: `y` and `z` are zero. */
    constructor FromX(x: real)
      ensures Value() == Vec3(x, 0.0, 0.0)
    {
      this.x, this.y, this.z := x, 0.0, 0.0;
    }

    /** `Vector3(x, y)`: `z` is zero. */
    constructor FromXY(x: real, y: real)
      ensures Value() == Vec3(x, y, 0.0)
    {
      this.x, this.y, this.z := x, y, 0.0;
    }

    /** `Vector3(x, y, z)`. */
    constructor FromXYZ(x: real, y: real, z: real)
      ensures Value() == Vec3(x, y, z)
    {
      this.x, this.y, this.z := x, y, z;
    }

    /** The implicit copy assignment `*this = v`. */
    method Assign(v: Vec3)
      modifies this
      ensures Value() == v
    {
      x, y, z := v.x, v.y, v.z;
    }

    /** `operator+=`. */
    method AddAssign(v: Vector3)
      modifies this
      ensures Value() == old(Value()).Add(old(v.Value()))
    {
      x := x + v.x;
      y := y + v.y;
      z := z + v.z;
    }

    /** `operator-=`. */
    method SubAssign(v: Vector3)
      modifies this
      ensures Value() == old(Value()).Sub(old(v.Value()))
    {
      x := x - v.x;
      y := y - v.y;
      z := z - v.z;
    }

    /** `operator*=`. */
    method MulAssign(scalar: real)
      modifies this
      ensures Value() == old(Value()).Scale(scalar)
    {
      x := x * scalar;
      y := y * scalar;
      z := z * scalar;
    }

    /** `operator/=`: divides in place, or zeroes every field when `|scalar| <= EPS`. */
    method DivAssign(scalar: real)
      modifies this
      ensures Value() == old(Value()).Div(scalar)
      ensures Abs(scalar) <= EPS ==> x == 0.0 && y == 0.0 && z == 0.0
    {
      if Abs(scalar) > EPS {
        x := x / scalar;
        y := y / scalar;
        z := z / scalar;
      } else {
        x, y, z := 0.0, 0.0, 0.0;
      }
    }

    /** `Normalize()`: leaves the object equal to `Normalized()`. */
    method Normalize()
      modifies this
      ensures Value() == old(Value()).Normalized()
    {
      var length := Value().Length();
      if length > EPS {
        DivAssign(length);
      } else {
        Assign(Zero);
      }
    }

    /** `Project(v)`: the same expression as `Projected(v)`, stored in place. */
    method Project(v: Vector3)
      modifies this
      ensures Value() == old(Value()).Projected(old(v.Value()))
    {
      var w := v.Value();
      var lengthSquared := w.LengthSquared();
      if lengthSquared < EPS {
        Assign(Zero);
      } else {
        Assign(w.Scale(Value().Dot(w)).Div(lengthSquared));
      }
    }

    /** `Reflect(normal)`: `*this -= 2 * Dot(n) * n` with `n = normal.Normalized()`. */
    method Reflect(normal: Vector3)
      modifies this
      ensures Value() == old(Value()).Reflected(old(normal.Value()))
    {
      var n := normal.Value().Normalized();
      var d := ScalarTimes(2.0 * Value().Dot(n), n);
      ReflectedUnfold(Value(), normal.Value(), d);
      var term := new Vector3.FromXYZ(d.x, d.y, d.z);
      SubAssign(term);
    }
  }

  // Properties relating several operations.

  /** `Dot` is symmetric. */
  lemma DotSymmetric(a: Vec3, b: Vec3)
    ensures a.Dot(b) == b.Dot(a)
  {
  }

  /** `Dot` distributes over `Add` in its first argument. */
  lemma DotAddDistributes(a: Vec3, b: Vec3, c: Vec3)
    ensures a.Add(b).Dot(c) == a.Dot(c) + b.Dot(c)
  {
  }

  /** `(1, 2, 3) . (4, 5, 6) = 32`. */
  lemma DotExample()
    ensures Vec3(1.0, 2.0, 3.0).Dot(Vec3(4.0, 5.0, 6.0)) == 32.0
  {
  }

  /** `Cross` is antisymmetric, and zero for equal vectors. */
  lemma CrossAntisymmetric(a: Vec3, b: Vec3)
    ensures a.Cross(b) == b.Cross(a).Neg()
    ensures a.Cross(a) == Zero
  {
  }

  /** `a x b` is orthogonal to both `a` and `b`. */
  lemma CrossOrthogonal(a: Vec3, b: Vec3)
    ensures a.Cross(b).Dot(a) == 0.0
    ensures a.Cross(b).Dot(b) == 0.0
  {
  }

  /** The unit vectors form a right-handed basis. */
  lemma UnitCrossProducts()
    ensures UnitX.Cross(UnitY) == UnitZ
    ensures UnitY.Cross(UnitZ) == UnitX
    ensures UnitZ.Cross(UnitX) == UnitY
  {
    CrossComponents(UnitX, UnitY);
    CrossComponents(UnitY, UnitZ);
    CrossComponents(UnitZ, UnitX);
  }

  /** `(1, 2, 3) x (4, 5, 6) = (-3, 6, -3)`. */
  lemma CrossExample()
    ensures Vec3(1.0, 2.0, 3.0).Cross(Vec3(4.0, 5.0, 6.0)) == Vec3(-3.0, 6.0, -3.0)
  {
  }

  /** Above `EPS`, dividing undoes scaling: `v * s / s == v`. */
  lemma ScaleDivRoundTrip(v: Vec3, s: real)
    requires Abs(s) > EPS
    ensures v.Scale(s).Div(s) == v
  {
    var p := v.Scale(s);
    ScaleComponents(v, s);
    DivComponents(p, s);
    ProductDivCancel(p.x, v.x, s);
    ProductDivCancel(p.y, v.y, s);
    ProductDivCancel(p.z, v.z, s);
  }

  /** `==` holds of every vector and itself, is symmetric, and `!=` is its negation. */
  lemma EqualityLaws(a: Vec3, b: Vec3)
    ensures a.Equal(a)
    ensures a.Equal(b) == b.Equal(a)
    ensures a.NotEqual(b) == !a.Equal(b)
  {
    var c := FloatComparator(EqualityEpsilon);
    CompareSymmetric(c, a.x, b.x);
    CompareSymmetric(c, a.y, b.y);
    CompareSymmetric(c, a.z, b.z);
  }

  /** Vectors `==` each other only when their zero components and signs agree. */
  lemma EqualKeepsSigns(a: Vec3, b: Vec3)
    requires a.Equal(b)
    ensures (a.x == 0.0 <==> b.x == 0.0) && (a.x < 0.0 <==> b.x < 0.0)
    ensures (a.y == 0.0 <==> b.y == 0.0) && (a.y < 0.0 <==> b.y < 0.0)
    ensures (a.z == 0.0 <==> b.z == 0.0) && (a.z < 0.0 <==> b.z < 0.0)
  {
    var c := FloatComparator(EqualityEpsilon);
    EqualityEpsilonBelowOne();
    CompareKeepsSign(c, a.x, b.x);
    CompareKeepsSign(c, a.y, b.y);
    CompareKeepsSign(c, a.z, b.z);
  }

  /** `DistanceTo` is symmetric. */
  lemma DistanceSymmetric(a: Vec3, b: Vec3)
    ensures a.DistanceTo(b) == b.DistanceTo(a)
  {
    assert a.Sub(b).LengthSquared() == b.Sub(a).LengthSquared();
  }

  /** With an exact square root, `(1, 2, 3)` and `(4, 6, 3)` are 5 apart. */
  lemma DistanceExample()
    requires SqrtIsExact()
    ensures Vec3(1.0, 2.0, 3.0).DistanceTo(Vec3(4.0, 6.0, 3.0)) == 5.0
  {
    assert Vec3(1.0, 2.0, 3.0).Sub(Vec3(4.0, 6.0, 3.0)).LengthSquared() == 5.0 * 5.0;
    SqrtOfSquare(5.0);
  }

  /** Projecting onto `UnitX` keeps the `x` component alone. */
  lemma ProjectedOntoUnitX(a: Vec3)
    ensures a.Projected(UnitX) == Vec3(a.x, 0.0, 0.0)
  {
    var v := UnitX;
    DotComponents(v, v);
    DotComponents(a, v);
    assert a.Dot(v) == a.x;
    ScaleThenDivide(v, a.x, 1.0);
    ScaleComponents(v, a.x / 1.0);
  }

  /** `(3, 2, 1)` projected onto `(1, 0, 0)` is `(3, 0, 0)`. */
  lemma ProjectedExample()
    ensures Vec3(3.0, 2.0, 1.0).Projected(UnitX) == Vec3(3.0, 0.0, 0.0)
  {
    ProjectedOntoUnitX(Vec3(3.0, 2.0, 1.0));
  }

  /** Projecting onto the zero vector gives the zero vector. */
  lemma ProjectedOntoZero(a: Vec3)
    ensures a.Projected(Zero) == Zero
  {
  }

  /** The dot product of `k v` with `v` is `k |v|^2`. */
  lemma ScaleDot(v: Vec3, k: real)
    ensures v.Scale(k).Dot(v) == k * v.LengthSquared()
  {
    ResidualDot(Zero, v, k);
    assert Zero.Sub(v.Scale(k)) == v.Scale(k).Neg();
    ScaleComponents(v, k);
    DotComponents(v.Scale(k), v);
    DotComponents(v.Scale(k).Neg(), v);
  }

  /** Projecting a projection again onto the same vector changes nothing. */
  lemma ProjectedIdempotent(a: Vec3, v: Vec3)
    ensures a.Projected(v).Projected(v) == a.Projected(v)
  {
    var s := v.LengthSquared();
    if s > EPS {
      var d := a.Dot(v);
      var k := d / s;
      ScaleThenDivide(v, d, s);
      var r := v.Scale(k);
      assert a.Projected(v) == r;
      ScaleDot(v, k);
      ProductDivCancel(r.Dot(v), k, s);
      ScaleThenDivide(v, r.Dot(v), s);
      assert r.Projected(v) == v.Scale(r.Dot(v) / s);
    }
  }

  /** The midpoint: `Lerp(v, 0.5)` averages the components. */
  lemma LerpMidpoint(a: Vec3, b: Vec3)
    ensures a.Lerp(b, 0.5) == Vec3((a.x + b.x) / 2.0, (a.y + b.y) / 2.0, (a.z + b.z) / 2.0)
  {
  }

  /** Reflecting across `UnitY` negates the `y` component alone. */
  lemma ReflectedAcrossUnitY(a: Vec3)
    ensures a.Reflected(UnitY) == Vec3(a.x, -a.y, a.z)
  {
    var n := UnitY;
    UnitYNormalized();
    DotComponents(a, n);
    assert a.Dot(n) == a.y;
    var d := ScalarTimes(2.0 * a.y, n);
    ScaleComponents(n, 2.0 * a.y);
    assert d == Vec3(0.0, 2.0 * a.y, 0.0);
    ReflectedUnfold(a, n, d);
  }

  /** `UnitY` is its own normalised form. */
  lemma UnitYNormalized()
    ensures UnitY.Normalized() == UnitY
  {
    var n := UnitY;
    DotComponents(n, n);
    assert n.Length() == 1.0;
    DivComponents(n, 1.0);
  }

  /** `(1, -1, -1)` reflected across `(0, 1, 0)` is `(1, 1, -1)`. */
  lemma ReflectedExample()
    ensures Vec3(1.0, -1.0, -1.0).Reflected(UnitY) == Vec3(1.0, 1.0, -1.0)
  {
    ReflectedAcrossUnitY(Vec3(1.0, -1.0, -1.0));
  }

  /** Reflecting twice across a unit normal restores the vector. */
  lemma ReflectAcrossUnitInvolutive(v: Vec3, normal: Vec3)
    requires normal.LengthSquared() == 1.0
    ensures v.Reflected(normal).Reflected(normal) == v
  {
    var n := normal.Normalized();
    assert n == normal;
    var d := v.Dot(n);
    var r := v.Reflected(normal);
    assert r == Vec3(v.x - 2.0 * d * n.x, v.y - 2.0 * d * n.y, v.z - 2.0 * d * n.z);
    assert r.Dot(n) == d - 2.0 * d * n.Dot(n);
    assert r.Dot(n) == -d;
  }

  /** Projecting onto a unit vector scales it by the dot product. */
  lemma ProjectedOntoUnit(a: Vec3, n: Vec3)
    requires n.LengthSquared() == 1.0
    ensures a.Projected(n) == n.Scale(a.Dot(n))
  {
    ScaleThenDivide(n, a.Dot(n), 1.0);
  }

  /** Scaling twice is scaling by the product. */
  lemma ScaleScale(v: Vec3, a: real, b: real)
    ensures v.Scale(a).Scale(b) == v.Scale(a * b)
  {
    ScaleComponents(v, a);
    ScaleComponents(v.Scale(a), b);
    ScaleComponents(v, a * b);
  }

  /**
   * Reflecting across a unit normal negates the component along it and keeps
   * the rest: it subtracts twice the projection onto the normal.
   */
  lemma ReflectedAcrossUnitNormal(v: Vec3, n: Vec3)
    requires n.LengthSquared() == 1.0
    ensures v.Reflected(n).Dot(n) == -v.Dot(n)
    ensures v.Reflected(n) == v.Sub(v.Projected(n).Scale(2.0))
  {
    NormalizedOfUnit(n);
    var d := v.Dot(n);
    assert v.Reflected(n) == v.Sub(n.Scale(2.0 * d));
    ResidualDot(v, n, 2.0 * d);
    ProjectedOntoUnit(v, n);
    ScaleScale(n, d, 2.0);
  }

  /**
   * `ReflectedAcrossUnitNormal` for any normal whose normalised form has unit
   * length, which `NormalizedHasUnitLength` gives for every normal longer than
   * `EPS` under an exact square root: reflecting across `normal` is reflecting
   * across its normalised form.
   */
  lemma ReflectedNegatesNormal(v: Vec3, normal: Vec3)
    requires normal.Normalized().LengthSquared() == 1.0
    ensures var n := normal.Normalized();
      v.Reflected(normal).Dot(n) == -v.Dot(n) && v.Reflected(normal) == v.Sub(v.Projected(n).Scale(2.0))
  {
    var n := normal.Normalized();
    NormalizedOfUnit(n);
    assert v.Reflected(normal) == v.Reflected(n);
    ReflectedAcrossUnitNormal(v, n);
  }

  /** With an exact square root, `Normalized()` of a vector longer than `EPS` has length 1. */
  lemma NormalizedHasUnitLength(v: Vec3)
    requires SqrtIsExact()
    requires v.Length() > EPS
    ensures v.Normalized().LengthSquared() == 1.0
    ensures v.Normalized().Length() == 1.0
  {
    var s, length := v.LengthSquared(), v.Length();
    assert length * length == s;
    var n := v.Normalized();
    assert n == Vec3(v.x / length, v.y / length, v.z / length);
    assert n.LengthSquared() == (v.x * v.x + v.y * v.y + v.z * v.z) / (length * length);
  }

  /** A vector of squared length 1 is its own normalised form. */
  lemma NormalizedOfUnit(v: Vec3)
    requires v.LengthSquared() == 1.0
    ensures v.Normalized() == v
  {
    assert v.Length() == 1.0;
    DivComponents(v, 1.0);
  }

  /** With an exact square root, normalising a normalised vector changes nothing. */
  lemma NormalizedIdempotent(v: Vec3)
    requires SqrtIsExact()
    ensures v.Normalized().Normalized() == v.Normalized()
  {
    var n := v.Normalized();
    if v.Length() > EPS {
      NormalizedHasUnitLength(v);
      NormalizedOfUnit(n);
    } else {
      assert n == Zero;
      assert n.LengthSquared() == 0.0;
    }
  }

  /** With an exact square root, reflecting twice across any normal restores the vector. */
  lemma ReflectedInvolutive(v: Vec3, normal: Vec3)
    requires SqrtIsExact()
    ensures v.Reflected(normal).Reflected(normal) == v
  {
    var n := normal.Normalized();
    NormalizedIdempotent(normal);
    var r := v.Reflected(normal);
    assert r == v.Reflected(n);
    assert r.Reflected(normal) == r.Reflected(n);
    if normal.Length() > EPS {
      NormalizedHasUnitLength(normal);
      ReflectAcrossUnitInvolutive(v, n);
    } else {
      assert n == Zero;
    }
  }
}
