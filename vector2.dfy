/**
 * `Vector2<T>`: a two-component vector. The `const` members of the C++
 * class are member functions of the value type `Vec2`; the members that
 * overwrite `x` and `y` in place are methods of the class `Vector2`.
 */
module Vector2 {
  import opened Scalar
  import opened FloatComparator

  datatype Vec2 = Vec2(x: real, y: real)
  {
    /** `operator+`: the zero vector is its identity. */
    function Add(v: Vec2): (r: Vec2)
      ensures v == Default ==> r == this
    {
      Vec2(x + v.x, y + v.y)
    }

    /** `operator-` (binary): undoes `Add`. */
    function Sub(v: Vec2): (r: Vec2)
      ensures r.Add(v) == this
      ensures r == Add(v.Neg())
      ensures r == Default <==> this == v
    {
      Vec2(x - v.x, y - v.y)
    }

    /** `operator*` with the scalar on the right: 1 keeps the vector, 0 annihilates it. */
    function Scale(scalar: real): (r: Vec2)
      ensures scalar == 1.0 ==> r == this
      ensures scalar == 0.0 ==> r == Default
    {
      Vec2(x * scalar, y * scalar)
    }

    /** `operator/`: divides when the divisor exceeds machine epsilon, else gives the zero vector. */
    function Div(scalar: real): (r: Vec2)
      ensures Abs(scalar) > EPS ==> r.Scale(scalar) == this
      ensures Abs(scalar) <= EPS ==> r == Default
    {
      if Abs(scalar) > EPS then Vec2(x / scalar, y / scalar) else Default
    }

    /** `operator-` (unary): the additive inverse. */
    function Neg(): (r: Vec2)
      ensures r.Add(this) == Default
    {
      Vec2(-x, -y)
    }

    /** `operator==`: every component pair passes the comparator with `5 * EPS`. */
    function Equal(v: Vec2): (r: bool)
      ensures this == v ==> r
    {
      var comparator := FloatComparator(EqualityEpsilon);
      comparator.Compare(x, v.x) && comparator.Compare(y, v.y)
    }

    /** `operator!=`. */
    function NotEqual(v: Vec2): (r: bool)
      ensures r == !Equal(v)
    {
      var comparator := FloatComparator(EqualityEpsilon);
      !comparator.Compare(x, v.x) || !comparator.Compare(y, v.y)
    }

    /** `LengthSquared()`. */
    function LengthSquared(): (r: real)
      ensures r == Dot(this)
      ensures 0.0 <= r
    {
      x * x + y * y
    }

    /** `Length()`: the square root of `LengthSquared()`. */
    function Length(): (r: real)
      ensures 0.0 <= r
      ensures r == 0.0 <==> this == Default
      ensures LengthSquared() == 1.0 ==> r == 1.0
    {
      SqrtZeroIff(LengthSquared());
      LengthSquaredZeroIff(this);
      Sqrt(LengthSquared())
    }

    /** `Normalized()`: `this / Length()`, or the zero vector when the length is at most `EPS`. */
    function Normalized(): (r: Vec2)
      ensures Length() <= EPS ==> r == Default
      ensures Length() > EPS ==> r.Scale(Length()) == this
    {
      var length := Length();
      if length > EPS then Div(length) else Default
    }

    /** `Dot(v)`: zero against the zero vector. */
    function Dot(v: Vec2): (r: real)
      ensures this == Default || v == Default ==> r == 0.0
    {
      x * v.x + y * v.y
    }

    /** `Cross(v)`: the 2D cross product, the dot of the clockwise perpendicular with `v`. */
    function Cross(v: Vec2): (r: real)
      ensures r == Perpendicular(true).Dot(v)
    {
      x * v.y - y * v.x
    }

    /** `Perpendicular(clockwise)`: one of the two quarter turns; orthogonal to `this`, same length. */
    function Perpendicular(clockwise: bool := false): (r: Vec2)
      ensures r.Dot(this) == 0.0
      ensures r.LengthSquared() == LengthSquared()
    {
      if clockwise then Vec2(-y, x) else Vec2(y, -x)
    }

    /** `DistanceTo(v)`: the length of the difference. */
    function DistanceTo(v: Vec2): (r: real)
      ensures 0.0 <= r
      ensures r == 0.0 <==> this == v
    {
      Sub(v).Length()
    }

    /**
     * `Projected(v)`: zero when `|v|^2 < EPS`; otherwise `v` scaled by
     * `Dot(v) / |v|^2`, the quotient taken first and without a guard.
     */
    function Projected(v: Vec2): (r: Vec2)
      ensures v.LengthSquared() < EPS ==> r == Default
      ensures v.LengthSquared() >= EPS ==> Sub(r).Dot(v) == 0.0
      ensures v.LengthSquared() >= EPS ==> r.Cross(v) == 0.0
    {
      var lengthSquared := v.LengthSquared();
      if lengthSquared < EPS then Default
      else
        var k := Dot(v) / lengthSquared;
        ProjectionResidualOrthogonal(this, v, k);
        v.Scale(k)
    }

    /** `Lerp(v, t)`: `(1 - t) * this + t * v`, unclamped. */
    function Lerp(v: Vec2, t: real): (r: Vec2)
      ensures r == Add(v.Sub(this).Scale(t))
      ensures t == 0.0 ==> r == this
      ensures t == 1.0 ==> r == v
    {
      ScalarTimes(1.0 - t, this).Add(ScalarTimes(t, v))
    }

    /**
     * `Reflected(normal)`: subtracts twice the component along the
     * normalised normal; a normal of length at most `EPS` changes nothing.
     */
    function Reflected(normal: Vec2): (r: Vec2)
      ensures normal.Length() <= EPS ==> r == this
    {
      var n := normal.Normalized();
      Sub(ScalarTimes(2.0 * Dot(n), n))
    }
  }

  /** `Vector2<T>()`, the default-constructed (zero) vector. */
  const Default: Vec2 := Vec2(0.0, 0.0)

  /** The friend `operator*(T scalar, const Vector2<T>& v)`. */
  function ScalarTimes(scalar: real, v: Vec2): (r: Vec2)
    ensures r == v.Scale(scalar)
  {
    Vec2(v.x * scalar, v.y * scalar)
  }

  /** The squared length is zero only for the zero vector. */
  lemma LengthSquaredZeroIff(v: Vec2)
    ensures v.LengthSquared() == 0.0 <==> v == Default
  {
    SquareNonNegative(v.x);
    SquareNonNegative(v.y);
    SquareZeroIff(v.x);
    SquareZeroIff(v.y);
  }

  /**
   * The expression of the in-place `Project`, `v * Dot(v) / |v|^2` with the
   * guarded division, for `|v|^2 >= EPS`: zero at `|v|^2 == EPS`, and
   * `Projected(v)` above it.
   */
  lemma GuardedProjection(a: Vec2, v: Vec2)
    requires v.LengthSquared() >= EPS
    ensures v.Scale(a.Dot(v)).Div(v.LengthSquared())
         == if v.LengthSquared() == EPS then Default else a.Projected(v)
  {
    var s, d := v.LengthSquared(), a.Dot(v);
    if s > EPS {
      assert a.Projected(v) == Vec2(v.x * (d / s), v.y * (d / s));
      assert v.Scale(d).Div(s) == Vec2((v.x * d) / s, (v.y * d) / s);
      DivAssociates(v.x, d, s);
      DivAssociates(v.y, d, s);
    }
  }

  /** The expression the in-place `Reflect` subtracts. */
  lemma ReflectedUnfold(a: Vec2, normal: Vec2, d: Vec2)
    requires d == ScalarTimes(2.0 * a.Dot(normal.Normalized()), normal.Normalized())
    ensures a.Reflected(normal) == a.Sub(d)
  {
  }

  /** Removing the projection of `a` onto `v` leaves a residual orthogonal to `v`. */
  lemma ProjectionResidualOrthogonal(a: Vec2, v: Vec2, k: real)
    requires v.LengthSquared() != 0.0 && k == a.Dot(v) / v.LengthSquared()
    ensures a.Sub(v.Scale(k)).Dot(v) == 0.0
    ensures v.Scale(k).Cross(v) == 0.0
  {
    var s := v.LengthSquared();
    assert a.Sub(v.Scale(k)).Dot(v) == a.Dot(v) - k * s;
    assert k * s == a.Dot(v);
  }

  // Static mirrors: each forwards to the instance member on its first argument.

  /** Static `Dot(v1, v2)`. */
  function Dot(v1: Vec2, v2: Vec2): (r: real)
    ensures r == v1.Dot(v2) && r == v2.Dot(v1)
  {
    v1.Dot(v2)
  }

  /** Static `Cross(v1, v2)`. */
  function Cross(v1: Vec2, v2: Vec2): (r: real)
    ensures r == v1.Cross(v2) && r == -v2.Cross(v1)
  {
    v1.Cross(v2)
  }

  /** Static `Distance(v1, v2)`. */
  function Distance(v1: Vec2, v2: Vec2): (r: real)
    ensures r == v1.DistanceTo(v2)
  {
    v1.DistanceTo(v2)
  }

  /** Static `Project(v1, v2)`: the value form `Projected`. */
  function Project(v1: Vec2, v2: Vec2): (r: Vec2)
    ensures r == v1.Projected(v2)
  {
    v1.Projected(v2)
  }

  /** Static `Lerp(v1, v2, t)`. */
  function Lerp(v1: Vec2, v2: Vec2, t: real): (r: Vec2)
    ensures r == v1.Lerp(v2, t)
  {
    v1.Lerp(v2, t)
  }

  /** Static `Reflect(v1, normal)`: the value form `Reflected`. */
  function Reflect(v1: Vec2, normal: Vec2): (r: Vec2)
    ensures r == v1.Reflected(normal)
  {
    v1.Reflected(normal)
  }

  /**
   * A `Vector2<T>` object: the fields `x` and `y`, overwritten in place by
   * the compound operators, `Normalize`, `Project` and `Reflect`. Vector
   * arguments are references (`const Vector2<T>&`) and may be `this`.
   */
  class Vector2 {
    var x: real
    var y: real

    /** The value currently held. */
    function Value(): Vec2
      reads this
    {
      Vec2(x, y)
    }

    /** `Vector2()`. */
    constructor ()
      ensures Value() == Default
    {
      x, y := 0.0, 0.0;
    }

    /** `Vector2(x)`: `y` is zero. */
    constructor FromX(x: real)
      ensures Value() == Vec2(x, 0.0)
    {
      this.x, this.y := x, 0.0;
    }

    /** `Vector2(x, y)`. */
    constructor FromXY(x: real, y: real)
      ensures Value() == Vec2(x, y)
    {
      this.x, this.y := x, y;
    }

    /** The implicit copy assignment `*this = v`. */
    method Assign(v: Vec2)
      modifies this
      ensures Value() == v
    {
      x, y := v.x, v.y;
    }

    /** `operator+=`. */
    method AddAssign(v: Vector2)
      modifies this
      ensures Value() == old(Value()).Add(old(v.Value()))
    {
      x := x + v.x;
      y := y + v.y;
    }

    /** `operator-=`. */
    method SubAssign(v: Vector2)
      modifies this
      ensures Value() == old(Value()).Sub(old(v.Value()))
    {
      x := x - v.x;
      y := y - v.y;
    }

    /** `operator*=`. */
    method MulAssign(scalar: real)
      modifies this
      ensures Value() == old(Value()).Scale(scalar)
    {
      x := x * scalar;
      y := y * scalar;
    }

    /** `operator/=`: divides in place, or zeroes both fields when `|scalar| <= EPS`. */
    method DivAssign(scalar: real)
      modifies this
      ensures Value() == old(Value()).Div(scalar)
      ensures Abs(scalar) <= EPS ==> x == 0.0 && y == 0.0
    {
      if Abs(scalar) > EPS {
        x := x / scalar;
        y := y / scalar;
      } else {
        x, y := 0.0, 0.0;
      }
    }

    /** `Normalize()`: leaves the object equal to `Normalized()`. */
    method Normalize()
      modifies this
      ensures Value() == old(Value()).Normalized()
    {
      var length := Value().Length();
      if length > EPS {
        DivAssign(length);
      } else {
        Assign(Default);
      }
    }

    /**
     * `Project(v)`: `*this = v * Dot(v) / |v|^2`, the division being the
     * guarded `operator/`. The result equals `Projected(v)` except when
     * `|v|^2 == EPS`, where the guard yields the zero vector.
     */
    method Project(v: Vector2)
      modifies this
      ensures var w := old(v.Value());
        Value() == if w.LengthSquared() <= EPS then Default else old(Value()).Projected(w)
    {
      var w := v.Value();
      var lengthSquared := w.LengthSquared();
      if lengthSquared < EPS {
        Assign(Default);
      } else {
        GuardedProjection(Value(), w);
        Assign(w.Scale(Value().Dot(w)).Div(lengthSquared));
      }
    }

    /** `Reflect(normal)`: `*this -= 2 * Dot(n) * n` with `n = normal.Normalized()`. */
    method Reflect(normal: Vector2)
      modifies this
      ensures Value() == old(Value()).Reflected(old(normal.Value()))
    {
      var n := normal.Value().Normalized();
      var d := ScalarTimes(2.0 * Value().Dot(n), n);
      ReflectedUnfold(Value(), normal.Value(), d);
      var term := new Vector2.FromXY(d.x, d.y);
      SubAssign(term);
    }
  }

  // Properties relating several operations.

  /** `Dot` is symmetric. */
  lemma DotSymmetric(a: Vec2, b: Vec2)
    ensures a.Dot(b) == b.Dot(a)
  {
  }

  /** `Dot` distributes over `Add` in its first argument. */
  lemma DotAddDistributes(a: Vec2, b: Vec2, c: Vec2)
    ensures a.Add(b).Dot(c) == a.Dot(c) + b.Dot(c)
  {
  }

  /** `Cross` is antisymmetric, and zero for equal vectors. */
  lemma CrossAntisymmetric(a: Vec2, b: Vec2)
    ensures a.Cross(b) == -b.Cross(a)
    ensures a.Cross(a) == 0.0
  {
  }

  /** `(1, 2) x (3, 4) = -2`. */
  lemma CrossExample()
    ensures Vec2(1.0, 2.0).Cross(Vec2(3.0, 4.0)) == -2.0
  {
  }

  /** Both perpendiculars of `(1, 2)`: `(2, -1)` by default, `(-2, 1)` clockwise. */
  lemma PerpendicularExample()
    ensures Vec2(1.0, 2.0).Perpendicular() == Vec2(2.0, -1.0)
    ensures Vec2(1.0, 2.0).Perpendicular(true) == Vec2(-2.0, 1.0)
  {
  }

  /** Above `EPS`, dividing undoes scaling: `v * s / s == v`. */
  lemma ScaleDivRoundTrip(v: Vec2, s: real)
    requires Abs(s) > EPS
    ensures v.Scale(s).Div(s) == v
  {
    assert v.Scale(s).Div(s) == Vec2(v.x * s / s, v.y * s / s);
    MulDivCancel(v.x, s);
    MulDivCancel(v.y, s);
  }

  /** `==` holds of every vector and itself, is symmetric, and `!=` is its negation. */
  lemma EqualityLaws(a: Vec2, b: Vec2)
    ensures a.Equal(a)
    ensures a.Equal(b) == b.Equal(a)
    ensures a.NotEqual(b) == !a.Equal(b)
  {
    var c := FloatComparator(EqualityEpsilon);
    CompareSymmetric(c, a.x, b.x);
    CompareSymmetric(c, a.y, b.y);
  }

  /** Vectors `==` each other only when their zero components and signs agree. */
  lemma EqualKeepsSigns(a: Vec2, b: Vec2)
    requires a.Equal(b)
    ensures (a.x == 0.0 <==> b.x == 0.0) && (a.x < 0.0 <==> b.x < 0.0)
    ensures (a.y == 0.0 <==> b.y == 0.0) && (a.y < 0.0 <==> b.y < 0.0)
  {
    var c := FloatComparator(EqualityEpsilon);
    EqualityEpsilonBelowOne();
    CompareKeepsSign(c, a.x, b.x);
    CompareKeepsSign(c, a.y, b.y);
  }

  /** `DistanceTo` is symmetric. */
  lemma DistanceSymmetric(a: Vec2, b: Vec2)
    ensures a.DistanceTo(b) == b.DistanceTo(a)
  {
    assert a.Sub(b).LengthSquared() == b.Sub(a).LengthSquared();
  }

  /** `(2, 6)` projected onto `(2, 1)` is `(4, 2)`. */
  lemma ProjectedExample()
    ensures Vec2(2.0, 6.0).Projected(Vec2(2.0, 1.0)) == Vec2(4.0, 2.0)
  {
  }

  /**
   * Where the in-place form and the value form of projection part: at
   * `|v|^2 == EPS` the guarded division of `Project` gives the zero vector,
   * while `Projected` returns `v` itself for `v.Projected(v)`.
   */
  lemma ProjectionsDisagreeAtEpsilon(v: Vec2)
    requires v.LengthSquared() == EPS
    ensures v.Scale(v.Dot(v)).Div(v.LengthSquared()) == Default
    ensures v.Projected(v) == v && v != Default
  {
    GuardedProjection(v, v);
    LengthSquaredZeroIff(v);
  }

  /** Projecting a projection again onto the same vector changes nothing. */
  lemma ProjectedIdempotent(a: Vec2, v: Vec2)
    ensures a.Projected(v).Projected(v) == a.Projected(v)
  {
    var s := v.LengthSquared();
    if s >= EPS {
      var k := a.Dot(v) / s;
      var r := v.Scale(k);
      assert a.Projected(v) == r;
      assert r == Vec2(v.x * k, v.y * k);
      assert r.Dot(v) == k * s;
      ProductDivCancel(r.Dot(v), k, s);
    }
  }

  /** The midpoint: `Lerp(v, 0.5)` averages the components. */
  lemma LerpMidpoint(a: Vec2, b: Vec2)
    ensures a.Lerp(b, 0.5) == Vec2((a.x + b.x) / 2.0, (a.y + b.y) / 2.0)
  {
  }

  /** Reflecting twice across a unit normal restores the vector. */
  lemma ReflectAcrossUnitInvolutive(v: Vec2, normal: Vec2)
    requires normal.LengthSquared() == 1.0
    ensures v.Reflected(normal).Reflected(normal) == v
  {
    var n := normal.Normalized();
    assert n == normal;
    var r := v.Reflected(normal);
    assert r == Vec2(v.x - 2.0 * v.Dot(n) * n.x, v.y - 2.0 * v.Dot(n) * n.y);
    assert r.Dot(n) == v.Dot(n) - 2.0 * v.Dot(n) * n.Dot(n);
    assert r.Dot(n) == -v.Dot(n);
  }

  /** A vector of squared length 1 is its own normalised form. */
  lemma NormalizedOfUnit(v: Vec2)
    requires v.LengthSquared() == 1.0
    ensures v.Normalized() == v
  {
    assert v.Length() == 1.0;
    assert v.Div(1.0) == Vec2(v.x / 1.0, v.y / 1.0);
  }

  /** Projecting onto a unit vector scales it by the dot product. */
  lemma ProjectedOntoUnit(a: Vec2, n: Vec2)
    requires n.LengthSquared() == 1.0
    ensures a.Projected(n) == n.Scale(a.Dot(n))
  {
    assert a.Dot(n) / n.LengthSquared() == a.Dot(n);
  }

  /**
   * Reflecting across a unit normal negates the component along it and keeps
   * the rest: it subtracts twice the projection onto the normal.
   */
  lemma ReflectedAcrossUnitNormal(v: Vec2, n: Vec2)
    requires n.LengthSquared() == 1.0
    ensures v.Reflected(n).Dot(n) == -v.Dot(n)
    ensures v.Reflected(n) == v.Sub(v.Projected(n).Scale(2.0))
  {
    NormalizedOfUnit(n);
    var d := v.Dot(n);
    var r := v.Reflected(n);
    assert r == Vec2(v.x - 2.0 * d * n.x, v.y - 2.0 * d * n.y);
    assert r.Dot(n) == d - 2.0 * d * n.Dot(n);
    ProjectedOntoUnit(v, n);
    assert n.Scale(d).Scale(2.0) == Vec2(n.x * d * 2.0, n.y * d * 2.0);
  }

  /**
   * `ReflectedAcrossUnitNormal` for any normal whose normalised form has unit
   * length, which `NormalizedHasUnitLength` gives for every normal longer than
   * `EPS` under an exact square root: reflecting across `normal` is reflecting
   * across its normalised form.
   */
  lemma ReflectedNegatesNormal(v: Vec2, normal: Vec2)
    requires normal.Normalized().LengthSquared() == 1.0
    ensures var n := normal.Normalized();
      v.Reflected(normal).Dot(n) == -v.Dot(n) && v.Reflected(normal) == v.Sub(v.Projected(n).Scale(2.0))
  {
    var n := normal.Normalized();
    NormalizedOfUnit(n);
    assert v.Reflected(normal) == v.Reflected(n);
    ReflectedAcrossUnitNormal(v, n);
  }

  /** With an exact square root, `Normalized()` of a vector longer than `EPS` has length 1. */
  lemma NormalizedHasUnitLength(v: Vec2)
    requires SqrtIsExact()
    requires v.Length() > EPS
    ensures v.Normalized().LengthSquared() == 1.0
    ensures v.Normalized().Length() == 1.0
  {
    var s, length := v.LengthSquared(), v.Length();
    assert length * length == s;
    var n := v.Normalized();
    assert n == Vec2(v.x / length, v.y / length);
    assert n.LengthSquared() == (v.x * v.x + v.y * v.y) / (length * length);
  }

  /** With an exact square root, reflecting twice across any normal restores the vector. */
  lemma ReflectedInvolutive(v: Vec2, normal: Vec2)
    requires SqrtIsExact()
    ensures v.Reflected(normal).Reflected(normal) == v
  {
    if normal.Length() > EPS {
      var n := normal.Normalized();
      NormalizedHasUnitLength(normal);
      var r := v.Reflected(normal);
      assert r.Dot(n) == v.Dot(n) - 2.0 * v.Dot(n) * n.Dot(n);
      assert r.Dot(n) == -v.Dot(n);
    }
  }

  /** With an exact square root, `(1, 3)` reflected across `(-1, 2)` is `(3, -1)`. */
  lemma ReflectedExample()
    requires SqrtIsExact()
    ensures Vec2(1.0, 3.0).Reflected(Vec2(-1.0, 2.0)) == Vec2(3.0, -1.0)
  {
    var v, normal := Vec2(1.0, 3.0), Vec2(-1.0, 2.0);
    assert normal.LengthSquared() == 5.0;
    var length := normal.Length();
    assert length == Sqrt(5.0);
    SqrtLess(1.0, 5.0);
    assert IsSquareRoot(Sqrt);
    assert length > 1.0;
    ReflectedExampleArithmetic(length);
    var n := normal.Normalized();
    assert n == Vec2(-1.0 / length, 2.0 / length);
    assert v.Dot(n) == 5.0 / length;
    var d := ScalarTimes(2.0 * v.Dot(n), n);
    assert d == Vec2(-2.0, 4.0);
    ReflectedUnfold(v, normal, d);
  }

  /** The arithmetic of `ReflectedExample`, for `length * length == 5`. */
  lemma ReflectedExampleArithmetic(length: real)
    requires SqrtIsExact() && length == Sqrt(5.0) && 1.0 < length
    ensures 1.0 * (-1.0 / length) + 3.0 * (2.0 / length) == 5.0 / length
    ensures (-1.0 / length) * (2.0 * (5.0 / length)) == -2.0
    ensures (2.0 / length) * (2.0 * (5.0 / length)) == 4.0
  {
    assert length * length == 5.0;
    MulDivCancel(length, length);
    assert 5.0 / length == length;
    DivMulCancel(-1.0, length);
    DivMulCancel(2.0, length);
  }
}
