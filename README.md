# Vector algebra core of the engine's math library

The engine's math library provides fixed-size vectors of two, three and four
scalar components: `Vector2<T>`, `Vector3<T>` and `Vector4<T>`, for `T` being
`float` or `double`. It also provides `FloatComparator<T>`, a relative-tolerance
equality test that all the vector `==` and `!=` operators use with a tolerance
of five machine epsilons. Each vector type offers:

- component-wise arithmetic;
- a division guarded by machine epsilon, which falls back to the zero vector;
- length, normalisation, dot and cross products, distance;
- projection, linear interpolation and reflection.

Most operations come both as a value-returning `const` member and as an in-place
member that overwrites the fields. `Vector2` and `Vector3` also have static
mirrors that forward to the instance members.

This project models that core in Dafny:

- `scalar.dfy` (module `Scalar`) holds the scalar kind:
  - Scalars are exact `real` numbers.
  - `EPS` stands for `std::numeric_limits<T>::epsilon()`. It is some value in (0, 2^-23], the range that covers `float` and `double`.
  - `Sqrt` stands for `std::sqrt`. It is any function that is non-negative on non-negative arguments, maps 0 to 0 and 1 to 1, and is strictly increasing.
  - Lemmas that need the square root to square back exactly take `SqrtIsExact()` as a hypothesis.
- `float_comparator.dfy` (module `FloatComparator`) holds `FloatComparator<T>`.
- `vector2.dfy`, `vector3.dfy` and `vector4.dfy` follow the same layout:
  - Each has a value datatype (`Vec2`, `Vec3`, `Vec4`) whose member functions are the `const` members.
  - The friend `scalar * v` is `ScalarTimes`, and the static mirrors are module-level functions.
  - A class (`Vector2`, `Vector3`, `Vector4`) holds mutable fields `x`, `y`, ... Its methods model the compound assignments, `Normalize`, `Project` and `Reflect`, and state the object's new value in terms of the value functions.
  - Vector arguments of the in-place methods are object references, as the C++ `const&` parameters are, so `v += v` is covered.

Points where the three vector types do not behave alike:

- In `Vector2` and `Vector4`, `Project` and `Projected` differ at `|v|^2 == EPS` exactly:
  - `Projected` divides the scalar first, without a guard (`Vector2.h:319`, `Vector4.h:400`).
  - `Project` uses the guarded vector `operator/` (`Vector2.h:329`, `Vector4.h:410`), which yields the zero vector there.
  - `ProjectionsDisagreeAtEpsilon` exhibits the difference.
- In `Vector3` both forms use the guarded `v * Dot(v) / |v|^2` (`Vector3.h:368`, `Vector3.h:378`). Both give zero for `|v|^2 <= EPS`, so they always agree.
- `Vector4` declares static mirrors (`Vector4.h:88-94`) but never defines them, so they are not modelled.
- `Vector4::Lerp` computes `self*(1-t) + v*t` (`Vector4.h:417`). `Vector2` and `Vector3` compute `(1-t)*self + t*v` (`Vector2.h:336`, `Vector3.h:385`). The two are equal over the reals.

## Model

| member | source | states |
|---|---|---|
| `Scalar.Abs` | src/core/math/FloatComparator.h:42-43 | `std::abs`: non-negative, and equal to the argument or its negation |
| `Scalar.Max` | src/core/math/FloatComparator.h:43 | `std::max`: at least both arguments, and equal to one of them |
| `Scalar.SqrtZeroIff` | src/core/math/Vector2.h:252-255 | the square root used by `Length` is non-negative and zero exactly at zero |
| `Scalar.SqrtOfSquare` | src/core/math/Vector3.h:307-310 | an exact square root of `a * a` is `a` for `a >= 0` |
| `FloatComparator.FloatComparator.Compare` | src/core/math/FloatComparator.h:40-49 | two zeros are equal; otherwise equal exactly when the distance is below `epsilon` times the larger magnitude; a non-positive tolerance accepts only two zeros; a positive one accepts equal values |
| `FloatComparator.Create` | src/core/math/FloatComparator.h:34-37 | the constructor stores its tolerance |
| `FloatComparator.DefaultIsMachineEpsilon` | src/core/math/FloatComparator.h:28 | the default tolerance is machine epsilon |
| `FloatComparator.CompareSymmetric` | src/core/math/FloatComparator.h:40-49 | `Compare(a, b) == Compare(b, a)` |
| `FloatComparator.CompareReflexive` | src/core/math/FloatComparator.h:40-49 | every value compares equal to itself under a positive tolerance |
| `FloatComparator.ZerosCompareEqual` | src/core/math/FloatComparator.h:45-46 | `Compare(0, 0)` holds whatever the tolerance |
| `FloatComparator.TenEpsilonsApartDiffer` | src/core/math/FloatComparator.h:48 | `1` and `1 + 10e` differ under a tolerance `e <= 0.9` |
| `FloatComparator.CompareKeepsSign` | src/core/math/FloatComparator.h:40-49 | with a tolerance of at most 1, equal values are both zero or both non-zero and have the same sign |
| `FloatComparator.EqualityEpsilonBelowOne` | src/core/math/Vector2.h:238-242 | the vector tolerance `5 * EPS` lies in (0, 1], the bound `CompareKeepsSign` needs; each `EqualKeepsSigns` uses it |
| `Vector2.Vec2.Add` | src/core/math/Vector2.h:162-165 | adding the zero vector changes nothing; `Sub` undoes it (see `Vector2.Vec2.Sub`) and the dot product distributes over it (`Vector2.DotAddDistributes`) |
| `Vector2.Vec2.Scale` | src/core/math/Vector2.h:174-177 | scaling by 1 keeps the vector and by 0 gives the zero vector; `ScaleDivRoundTrip` proves that `Div` undoes it above `EPS` |
| `Vector2.Vec2.Sub` | src/core/math/Vector2.h:168-171 | `(a - b) + b == a`, `a - b == a + (-b)`, and `a - b` is zero exactly when `a == b` |
| `Vector2.Vec2.Div` | src/core/math/Vector2.h:186-193 | above `EPS` the quotient times the divisor gives back the vector; otherwise the zero vector |
| `Vector2.Vec2.Neg` | src/core/math/Vector2.h:196-199 | `-v + v` is the zero vector |
| `Vector2.Vec2.Equal` | src/core/math/Vector2.h:238-242 | every vector `==` itself |
| `Vector2.Vec2.NotEqual` | src/core/math/Vector2.h:245-249 | `!=` is exactly the negation of `==` |
| `Vector2.Vec2.LengthSquared` | src/core/math/Vector2.h:258-261 | equals `Dot(this)` and is non-negative |
| `Vector2.Vec2.Length` | src/core/math/Vector2.h:252-255 | non-negative, zero exactly for the zero vector, 1 when the squared length is 1 |
| `Vector2.Vec2.Normalized` | src/core/math/Vector2.h:264-268 | zero when the length is at most `EPS`; otherwise the normalised vector times the length gives back the vector |
| `Vector2.Vec2.Cross` | src/core/math/Vector2.h:288-291 | the 2D cross product is the dot product of the clockwise perpendicular with `v` |
| `Vector2.Vec2.Perpendicular` | src/core/math/Vector2.h:294-297 | both quarter turns are orthogonal to the vector and keep its squared length |
| `Vector2.Vec2.Dot` | src/core/math/Vector2.h:282-285 | zero when either operand is the zero vector; symmetric and additive by `Vector2.DotSymmetric` and `Vector2.DotAddDistributes` |
| `Vector2.Vec2.DistanceTo` | src/core/math/Vector2.h:308-311 | non-negative, and zero exactly when the vectors are equal |
| `Vector2.Vec2.Projected` | src/core/math/Vector2.h:314-320 | zero when `|v|^2 < EPS`; otherwise the residual is orthogonal to `v` and the result is parallel to `v` |
| `Vector2.Vec2.Lerp` | src/core/math/Vector2.h:334-337 | equals `this + (v - this) * t`, gives `this` at `t = 0` and `v` at `t = 1` |
| `Vector2.Vec2.Reflected` | src/core/math/Vector2.h:340-344 | a normal of length at most `EPS` leaves the vector unchanged; otherwise the component along the normalised normal is negated (`ReflectedNegatesNormal`) |
| `Vector2.ScalarTimes` | src/core/math/Vector2.h:180-183 | `scalar * v == v * scalar` |
| `Vector2.LengthSquaredZeroIff` | src/core/math/Vector2.h:258-261 | the squared length is zero exactly for the zero vector |
| `Vector2.GuardedProjection` | src/core/math/Vector2.h:323-331 | for `|v|^2 >= EPS`, the in-place expression `v * Dot(v) / |v|^2` is zero at `|v|^2 == EPS` and equals `Projected(v)` above it |
| `Vector2.ReflectedUnfold` | src/core/math/Vector2.h:347-352 | the in-place `Reflect` subtracts the same term `Reflected` does |
| `Vector2.ProjectionResidualOrthogonal` | src/core/math/Vector2.h:314-320 | `a - v * (a.v / |v|^2)` is orthogonal to `v`, and `v * k` crosses `v` to zero |
| `Vector2.Dot` | src/core/math/Vector2.h:355-358 | the static mirror agrees with `v1.Dot(v2)` and with `v2.Dot(v1)` |
| `Vector2.Cross` | src/core/math/Vector2.h:361-364 | the static mirror agrees with `v1.Cross(v2)` and is the negation of `v2.Cross(v1)` |
| `Vector2.Distance` | src/core/math/Vector2.h:373-376 | the static mirror agrees with `DistanceTo` |
| `Vector2.Project` | src/core/math/Vector2.h:379-382 | the static mirror agrees with `Projected` |
| `Vector2.Lerp` | src/core/math/Vector2.h:385-388 | the static mirror agrees with the instance `Lerp` |
| `Vector2.Reflect` | src/core/math/Vector2.h:391-394 | the static mirror agrees with `Reflected` |
| `Vector2.Vector2.constructor` | src/core/math/Vector2.h:103-107 | the default constructor holds the zero vector |
| `Vector2.Vector2.FromX` | src/core/math/Vector2.h:110-114 | `Vector2(x)` sets `y` to zero |
| `Vector2.Vector2.FromXY` | src/core/math/Vector2.h:117-121 | `Vector2(x, y)` holds `(x, y)` |
| `Vector2.Vector2.Assign` | src/core/math/Vector2.h:277 | `*this = v` makes the object hold `v` |
| `Vector2.Vector2.AddAssign` | src/core/math/Vector2.h:202-207 | `+=` leaves the old value plus the argument's old value, also when the argument is the object itself |
| `Vector2.Vector2.SubAssign` | src/core/math/Vector2.h:210-215 | `-=` leaves the old value minus the argument's old value |
| `Vector2.Vector2.MulAssign` | src/core/math/Vector2.h:218-223 | `*=` leaves the old value scaled |
| `Vector2.Vector2.DivAssign` | src/core/math/Vector2.h:226-235 | `/=` leaves `old / scalar`, and both fields zero when `|scalar| <= EPS` |
| `Vector2.Vector2.Normalize` | src/core/math/Vector2.h:271-279 | the object ends up equal to `Normalized()` of its old value |
| `Vector2.Vector2.Project` | src/core/math/Vector2.h:323-331 | the object ends up zero when `|v|^2 <= EPS`, and `Projected(v)` of its old value otherwise |
| `Vector2.Vector2.Reflect` | src/core/math/Vector2.h:347-352 | the object ends up equal to `Reflected(normal)` of its old value |
| `Vector2.DotSymmetric` | src/core/math/Vector2.h:282-285 | `a.b == b.a` |
| `Vector2.DotAddDistributes` | src/core/math/Vector2.h:282-285 | `(a + b).c == a.c + b.c` |
| `Vector2.CrossAntisymmetric` | src/core/math/Vector2.h:288-291 | `a x b == -(b x a)` and `a x a == 0` |
| `Vector2.CrossExample` | tests/core/math/Vector2.test.cpp:269-275 | `(1, 2) x (3, 4) == -2` |
| `Vector2.PerpendicularExample` | tests/core/math/Vector2.test.cpp:277-290 | the perpendiculars of `(1, 2)` are `(2, -1)` and `(-2, 1)` |
| `Vector2.EqualityLaws` | src/core/math/Vector2.h:238-249 | `==` is reflexive and symmetric, and `!=` is its negation |
| `Vector2.EqualKeepsSigns` | src/core/math/Vector2.h:238-242 | `==` vectors agree component-wise on being zero and on sign |
| `Vector2.DistanceSymmetric` | src/core/math/Vector2.h:308-311 | `a.DistanceTo(b) == b.DistanceTo(a)` |
| `Vector2.ProjectedExample` | tests/core/math/Vector2.test.cpp:318-327 | `(2, 6)` projected onto `(2, 1)` is `(4, 2)` |
| `Vector2.ProjectedIdempotent` | src/core/math/Vector2.h:314-320 | projecting a projection onto the same vector changes nothing |
| `Vector2.ProjectionsDisagreeAtEpsilon` | src/core/math/Vector2.h:314-331 | at `|v|^2 == EPS` the in-place expression gives zero while `v.Projected(v)` is the non-zero `v` |
| `Vector2.LerpMidpoint` | tests/core/math/Vector2.test.cpp:340-355 | `Lerp(b, 0.5)` is the component-wise average |
| `Vector2.ScaleDivRoundTrip` | src/core/math/Vector2.h:186-193 | above `EPS` (either sign), dividing undoes scaling: `v * s / s == v` |
| `Vector2.ProjectedOntoUnit` | src/core/math/Vector2.h:314-320 | projecting onto a unit vector `n` gives `n` scaled by the dot product with `n` |
| `Vector2.ReflectedAcrossUnitNormal` | src/core/math/Vector2.h:340-344 | across a unit normal, the reflection's component along the normal is the negated original component, and the reflection is the vector minus twice its projection onto the normal |
| `Vector2.ReflectedNegatesNormal` | src/core/math/Vector2.h:340-344 | the same for any normal whose normalised form has unit length, with respect to that normalised form |
| `Vector2.NormalizedOfUnit` | src/core/math/Vector2.h:264-268 | a vector of squared length 1 is its own normalised form |
| `Vector2.ReflectAcrossUnitInvolutive` | src/core/math/Vector2.h:340-344 | reflecting twice across a unit normal gives back the vector |
| `Vector2.NormalizedHasUnitLength` | src/core/math/Vector2.h:264-268 | with an exact square root, a vector longer than `EPS` normalises to length 1 |
| `Vector2.ReflectedInvolutive` | src/core/math/Vector2.h:340-344 | with an exact square root, reflecting twice across any normal gives back the vector |
| `Vector2.ReflectedExample` | tests/core/math/Vector2.test.cpp:357-366 | with an exact square root, `(1, 3)` reflected across `(-1, 2)` is `(3, -1)` |
| `Vector3.Vec3.Add` | src/core/math/Vector3.h:213-216 | adding the zero vector changes nothing; `Sub` undoes it (see `Vector3.Vec3.Sub`) and the dot product distributes over it (`Vector3.DotAddDistributes`) |
| `Vector3.Vec3.Scale` | src/core/math/Vector3.h:225-228 | scaling by 1 keeps the vector and by 0 gives the zero vector; `ScaleDivRoundTrip` proves that `Div` undoes it above `EPS` |
| `Vector3.Vec3.Sub` | src/core/math/Vector3.h:219-222 | `(a - b) + b == a`, `a - b == a + (-b)`, and `a - b` is zero exactly when `a == b` |
| `Vector3.Vec3.Div` | src/core/math/Vector3.h:237-244 | the zero vector when `|scalar| <= EPS` |
| `Vector3.Vec3.Neg` | src/core/math/Vector3.h:247-250 | `-v + v` is the zero vector |
| `Vector3.Vec3.Equal` | src/core/math/Vector3.h:293-297 | every vector `==` itself |
| `Vector3.Vec3.NotEqual` | src/core/math/Vector3.h:300-304 | `!=` is exactly the negation of `==` |
| `Vector3.Vec3.LengthSquared` | src/core/math/Vector3.h:313-316 | equals `Dot(this)` and is non-negative |
| `Vector3.Vec3.Length` | src/core/math/Vector3.h:307-310 | non-negative, zero exactly for the zero vector, 1 when the squared length is 1 |
| `Vector3.Vec3.Normalized` | src/core/math/Vector3.h:319-323 | the zero vector when the length is at most `EPS` |
| `Vector3.Vec3.Dot` | src/core/math/Vector3.h:337-340 | zero when either operand is the zero vector; symmetric and additive by `Vector3.DotSymmetric` and `Vector3.DotAddDistributes` |
| `Vector3.Vec3.Cross` | src/core/math/Vector3.h:343-346 | orthogonal to both operands and zero for equal operands; antisymmetric by `Vector3.CrossAntisymmetric` |
| `Vector3.Vec3.DistanceTo` | src/core/math/Vector3.h:357-360 | non-negative, and zero exactly when the vectors are equal |
| `Vector3.Vec3.Projected` | src/core/math/Vector3.h:363-369 | zero when `|v|^2 <= EPS`; otherwise the residual is orthogonal to `v` and the result crosses `v` to zero |
| `Vector3.Vec3.Lerp` | src/core/math/Vector3.h:383-386 | equals `this + (v - this) * t`, gives `this` at `t = 0` and `v` at `t = 1` |
| `Vector3.Vec3.Reflected` | src/core/math/Vector3.h:389-393 | a normal of length at most `EPS` leaves the vector unchanged; otherwise the component along the normalised normal is negated (`ReflectedNegatesNormal`) |
| `Vector3.UnitVectors` | src/core/math/Vector3.h:109-136 | the unit vectors have length 1, are pairwise orthogonal and sum to `One`, whose squared length is 3 |
| `Vector3.ScalarTimes` | src/core/math/Vector3.h:231-234 | `scalar * v == v * scalar` |
| `Vector3.LengthSquaredZeroIff` | src/core/math/Vector3.h:313-316 | the squared length is zero exactly for the zero vector |
| `Vector3.ScaleUndoesDiv` | src/core/math/Vector3.h:237-244 | above `EPS`, scaling undoes dividing: `v / s * s == v` |
| `Vector3.NormalizedScalesBack` | src/core/math/Vector3.h:319-323 | a vector longer than `EPS` is its normalised form times its length |
| `Vector3.ScaleThenDivide` | src/core/math/Vector3.h:368 | above `EPS`, `v * d / s` equals `v * (d / s)` |
| `Vector3.ProjectionProperties` | src/core/math/Vector3.h:363-369 | for `|v|^2 > EPS` the projection leaves a residual orthogonal to `v` and crosses `v` to zero |
| `Vector3.ResidualDot` | src/core/math/Vector3.h:368 | removing `k v` from `a` removes `k |v|^2` from `a.v` |
| `Vector3.ParallelCross` | src/core/math/Vector3.h:343-346 | a multiple of `v` crosses `v` to zero |
| `Vector3.ReflectedUnfold` | src/core/math/Vector3.h:396-401 | the in-place `Reflect` subtracts the same term `Reflected` does |
| `Vector3.Dot` | src/core/math/Vector3.h:404-407 | the static mirror agrees with `v1.Dot(v2)` and with `v2.Dot(v1)` |
| `Vector3.Cross` | src/core/math/Vector3.h:410-413 | the static mirror agrees with `v1.Cross(v2)` and is the negation of `v2.Cross(v1)` |
| `Vector3.Distance` | src/core/math/Vector3.h:422-425 | the static mirror agrees with `DistanceTo` |
| `Vector3.Project` | src/core/math/Vector3.h:428-431 | the static mirror agrees with `Projected` |
| `Vector3.Lerp` | src/core/math/Vector3.h:434-437 | the static mirror agrees with the instance `Lerp` |
| `Vector3.Reflect` | src/core/math/Vector3.h:440-443 | the static mirror agrees with `Reflected` |
| `Vector3.Vector3.constructor` | src/core/math/Vector3.h:139-144 | the default constructor holds the zero vector |
| `Vector3.Vector3.FromX` | src/core/math/Vector3.h:147-152 | `Vector3(x)` sets `y` and `z` to zero |
| `Vector3.Vector3.FromXY` | src/core/math/Vector3.h:155-160 | `Vector3(x, y)` sets `z` to zero |
| `Vector3.Vector3.FromXYZ` | src/core/math/Vector3.h:163-168 | `Vector3(x, y, z)` holds `(x, y, z)` |
| `Vector3.Vector3.Assign` | src/core/math/Vector3.h:332 | `*this = v` makes the object hold `v` |
| `Vector3.Vector3.AddAssign` | src/core/math/Vector3.h:253-259 | `+=` leaves the old value plus the argument's old value, also when the argument is the object itself |
| `Vector3.Vector3.SubAssign` | src/core/math/Vector3.h:262-268 | `-=` leaves the old value minus the argument's old value |
| `Vector3.Vector3.MulAssign` | src/core/math/Vector3.h:271-277 | `*=` leaves the old value scaled |
| `Vector3.Vector3.DivAssign` | src/core/math/Vector3.h:280-290 | `/=` leaves `old / scalar`, and every field zero when `|scalar| <= EPS` |
| `Vector3.Vector3.Normalize` | src/core/math/Vector3.h:326-334 | the object ends up equal to `Normalized()` of its old value |
| `Vector3.Vector3.Project` | src/core/math/Vector3.h:372-380 | the object ends up equal to `Projected(v)` of its old value |
| `Vector3.Vector3.Reflect` | src/core/math/Vector3.h:396-401 | the object ends up equal to `Reflected(normal)` of its old value |
| `Vector3.DotSymmetric` | src/core/math/Vector3.h:337-340 | `a.b == b.a` |
| `Vector3.DotAddDistributes` | src/core/math/Vector3.h:337-340 | `(a + b).c == a.c + b.c` |
| `Vector3.DotExample` | tests/core/math/Vector3.test.cpp:289-295 | `(1, 2, 3).(4, 5, 6) == 32` |
| `Vector3.CrossAntisymmetric` | src/core/math/Vector3.h:343-346 | `a x b == -(b x a)` and `a x a` is zero |
| `Vector3.CrossOrthogonal` | src/core/math/Vector3.h:343-346 | `a x b` is orthogonal to `a` and to `b` |
| `Vector3.UnitCrossProducts` | src/core/math/Vector3.h:121-136 | `X x Y == Z`, `Y x Z == X`, `Z x X == Y` |
| `Vector3.CrossExample` | tests/core/math/Vector3.test.cpp:297-307 | `(1, 2, 3) x (4, 5, 6) == (-3, 6, -3)` |
| `Vector3.EqualityLaws` | src/core/math/Vector3.h:293-304 | `==` is reflexive and symmetric, and `!=` is its negation |
| `Vector3.EqualKeepsSigns` | src/core/math/Vector3.h:293-297 | `==` vectors agree component-wise on being zero and on sign |
| `Vector3.DistanceSymmetric` | src/core/math/Vector3.h:357-360 | `a.DistanceTo(b) == b.DistanceTo(a)` |
| `Vector3.DistanceExample` | tests/core/math/Vector3.test.cpp:326-332 | with an exact square root, `(1, 2, 3)` and `(4, 6, 3)` are 5 apart |
| `Vector3.ProjectedOntoUnitX` | src/core/math/Vector3.h:363-369 | projecting onto `UnitX` keeps the `x` component alone |
| `Vector3.ProjectedExample` | tests/core/math/Vector3.test.cpp:334-343 | `(3, 2, 1)` projected onto `(1, 0, 0)` is `(3, 0, 0)` |
| `Vector3.ProjectedOntoZero` | src/core/math/Vector3.h:365-367 | projecting onto the zero vector gives the zero vector |
| `Vector3.ScaleDot` | src/core/math/Vector3.h:337-340 | `(k v).v == k |v|^2` |
| `Vector3.ProjectedIdempotent` | src/core/math/Vector3.h:363-369 | projecting a projection onto the same vector changes nothing |
| `Vector3.LerpMidpoint` | tests/core/math/Vector3.test.cpp:356-367 | `Lerp(b, 0.5)` is the component-wise average |
| `Vector3.ReflectedAcrossUnitY` | src/core/math/Vector3.h:389-393 | reflecting across `UnitY` negates the `y` component alone |
| `Vector3.UnitYNormalized` | src/core/math/Vector3.h:127-130 | `UnitY` is its own normalised form |
| `Vector3.ReflectedExample` | tests/core/math/Vector3.test.cpp:369-379 | `(1, -1, -1)` reflected across `(0, 1, 0)` is `(1, 1, -1)` |
| `Vector3.ScaleDivRoundTrip` | src/core/math/Vector3.h:237-244 | above `EPS` (either sign), dividing undoes scaling: `v * s / s == v` |
| `Vector3.ProjectedOntoUnit` | src/core/math/Vector3.h:363-369 | projecting onto a unit vector `n` gives `n` scaled by the dot product with `n` |
| `Vector3.ReflectedAcrossUnitNormal` | src/core/math/Vector3.h:389-393 | across a unit normal, the reflection's component along the normal is the negated original component, and the reflection is the vector minus twice its projection onto the normal |
| `Vector3.ReflectedNegatesNormal` | src/core/math/Vector3.h:389-393 | the same for any normal whose normalised form has unit length, with respect to that normalised form |
| `Vector3.ScaleScale` | src/core/math/Vector3.h:225-228 | scaling twice is scaling by the product of the factors |
| `Vector3.ReflectAcrossUnitInvolutive` | src/core/math/Vector3.h:389-393 | reflecting twice across a unit normal gives back the vector |
| `Vector3.NormalizedHasUnitLength` | src/core/math/Vector3.h:319-323 | with an exact square root, a vector longer than `EPS` normalises to length 1 |
| `Vector3.NormalizedOfUnit` | src/core/math/Vector3.h:319-323 | a vector of squared length 1 is its own normalised form |
| `Vector3.NormalizedIdempotent` | src/core/math/Vector3.h:319-323 | with an exact square root, normalising twice is normalising once |
| `Vector3.ReflectedInvolutive` | src/core/math/Vector3.h:389-393 | with an exact square root, reflecting twice across any normal gives back the vector |
| `Vector4.Vec4.Add` | src/core/math/Vector4.h:240-243 | adding the zero vector changes nothing; `Sub` undoes it (see `Vector4.Vec4.Sub`) and the dot product distributes over it (`Vector4.DotAddDistributes`) |
| `Vector4.Vec4.Scale` | src/core/math/Vector4.h:252-255 | scaling by 1 keeps the vector and by 0 gives the zero vector; `ScaleDivRoundTrip` proves that `Div` undoes it above `EPS` |
| `Vector4.Vec4.Sub` | src/core/math/Vector4.h:246-249 | `(a - b) + b == a`, `a - b == a + (-b)`, and `a - b` is zero exactly when `a == b` |
| `Vector4.Vec4.Div` | src/core/math/Vector4.h:264-270 | the zero vector when `|scalar| <= EPS` |
| `Vector4.Vec4.Neg` | src/core/math/Vector4.h:273-276 | `-v + v` is the zero vector |
| `Vector4.Vec4.Equal` | src/core/math/Vector4.h:323-328 | every vector `==` itself |
| `Vector4.Vec4.NotEqual` | src/core/math/Vector4.h:331-336 | `!=` is exactly the negation of `==` |
| `Vector4.Vec4.LengthSquared` | src/core/math/Vector4.h:345-348 | equals `Dot(this)` and is non-negative |
| `Vector4.Vec4.Length` | src/core/math/Vector4.h:339-342 | non-negative, zero exactly for the zero vector, 1 when the squared length is 1 |
| `Vector4.Vec4.Normalized` | src/core/math/Vector4.h:351-355 | the zero vector when the length is at most `EPS` |
| `Vector4.Vec4.Dot` | src/core/math/Vector4.h:369-372 | zero when either operand is the zero vector; symmetric and additive by `Vector4.DotSymmetric` and `Vector4.DotAddDistributes` |
| `Vector4.Vec4.Cross` | src/core/math/Vector4.h:375-378 | orthogonal to both operands and zero for equal operands; its `w` is zero; antisymmetric by `Vector4.CrossAntisymmetric` |
| `Vector4.Vec4.DistanceTo` | src/core/math/Vector4.h:389-392 | non-negative, and zero exactly when the vectors are equal |
| `Vector4.Vec4.Projected` | src/core/math/Vector4.h:395-401 | zero when `|v|^2 < EPS`; otherwise the residual is orthogonal to `v` and the result crosses `v` to zero |
| `Vector4.Vec4.Lerp` | src/core/math/Vector4.h:415-418 | equals `this + (v - this) * t`, gives `this` at `t = 0` and `v` at `t = 1` |
| `Vector4.Vec4.Reflected` | src/core/math/Vector4.h:421-425 | a normal of length at most `EPS` leaves the vector unchanged; otherwise the component along the normalised normal is negated (`ReflectedNegatesNormal`) |
| `Vector4.ScalarTimes` | src/core/math/Vector4.h:258-261 | `scalar * v == v * scalar` |
| `Vector4.UnitVectors` | src/core/math/Vector4.h:112-145 | the unit vectors have length 1, are pairwise orthogonal and sum to `One`, whose squared length is 4 |
| `Vector4.LengthSquaredZeroIff` | src/core/math/Vector4.h:345-348 | the squared length is zero exactly for the zero vector |
| `Vector4.ScaleUndoesDiv` | src/core/math/Vector4.h:264-270 | above `EPS`, scaling undoes dividing: `v / s * s == v` |
| `Vector4.NormalizedScalesBack` | src/core/math/Vector4.h:351-355 | a vector longer than `EPS` is its normalised form times its length |
| `Vector4.ScaleThenDivide` | src/core/math/Vector4.h:410 | above `EPS`, `v * d / s` equals `v * (d / s)` |
| `Vector4.ResidualDot` | src/core/math/Vector4.h:400 | removing `k v` from `a` removes `k |v|^2` from `a.v` |
| `Vector4.ParallelCross` | src/core/math/Vector4.h:375-378 | a multiple of `v` crosses `v` to zero |
| `Vector4.ProjectionResidualOrthogonal` | src/core/math/Vector4.h:395-401 | `a - v * (a.v / |v|^2)` is orthogonal to `v`, and `v * k` crosses `v` to zero |
| `Vector4.GuardedProjection` | src/core/math/Vector4.h:404-412 | for `|v|^2 >= EPS`, the in-place expression `v * Dot(v) / |v|^2` is zero at `|v|^2 == EPS` and equals `Projected(v)` above it |
| `Vector4.ReflectedUnfold` | src/core/math/Vector4.h:428-433 | the in-place `Reflect` subtracts the same term `Reflected` does |
| `Vector4.Vector4.constructor` | src/core/math/Vector4.h:148-154 | the default constructor holds the zero vector |
| `Vector4.Vector4.FromX` | src/core/math/Vector4.h:157-163 | `Vector4(x)` sets `y`, `z` and `w` to zero |
| `Vector4.Vector4.FromXY` | src/core/math/Vector4.h:166-173 | `Vector4(x, y)` sets `z` and `w` to zero |
| `Vector4.Vector4.FromXYZ` | src/core/math/Vector4.h:176-182 | `Vector4(x, y, z)` sets `w` to zero |
| `Vector4.Vector4.FromXYZW` | src/core/math/Vector4.h:185-191 | `Vector4(x, y, z, w)` holds `(x, y, z, w)` |
| `Vector4.Vector4.Assign` | src/core/math/Vector4.h:408 | `*this = v` makes the object hold `v` |
| `Vector4.Vector4.AddAssign` | src/core/math/Vector4.h:279-286 | `+=` leaves the old value plus the argument's old value, also when the argument is the object itself |
| `Vector4.Vector4.SubAssign` | src/core/math/Vector4.h:289-296 | `-=` leaves the old value minus the argument's old value |
| `Vector4.Vector4.MulAssign` | src/core/math/Vector4.h:299-306 | `*=` leaves the old value scaled |
| `Vector4.Vector4.DivAssign` | src/core/math/Vector4.h:309-320 | `/=` leaves `old / scalar`, and all four fields zero when `|scalar| <= EPS` |
| `Vector4.Vector4.Normalize` | src/core/math/Vector4.h:358-366 | the object ends up equal to `Normalized()` of its old value, with all four fields zero when the length is at most `EPS` |
| `Vector4.Vector4.Project` | src/core/math/Vector4.h:404-412 | the object ends up zero when `|v|^2 <= EPS`, and `Projected(v)` of its old value otherwise |
| `Vector4.Vector4.Reflect` | src/core/math/Vector4.h:428-433 | the object ends up equal to `Reflected(normal)` of its old value |
| `Vector4.DotSymmetric` | src/core/math/Vector4.h:369-372 | `a.b == b.a` |
| `Vector4.DotAddDistributes` | src/core/math/Vector4.h:369-372 | `(a + b).c == a.c + b.c` |
| `Vector4.CrossIgnoresW` | src/core/math/Vector4.h:375-378 | the cross product always has `w == 0` and does not depend on either operand's `w` |
| `Vector4.CrossAntisymmetric` | src/core/math/Vector4.h:375-378 | `a x b == -(b x a)` and `a x a` is zero |
| `Vector4.CrossOrthogonal` | src/core/math/Vector4.h:375-378 | `a x b` is orthogonal to `a` and to `b`, whatever their `w` |
| `Vector4.UnitCrossProducts` | src/core/math/Vector4.h:124-145 | `X x Y == Z`, `Y x Z == X`, `Z x X == Y`, and `W x X` is zero |
| `Vector4.EqualityLaws` | src/core/math/Vector4.h:323-336 | `==` is reflexive and symmetric, and `!=` is its negation |
| `Vector4.EqualKeepsSigns` | src/core/math/Vector4.h:323-328 | `==` vectors agree component-wise on being zero and on sign |
| `Vector4.DistanceSymmetric` | src/core/math/Vector4.h:389-392 | `a.DistanceTo(b) == b.DistanceTo(a)` |
| `Vector4.ProjectedOntoZero` | src/core/math/Vector4.h:397-399 | projecting onto the zero vector gives the zero vector |
| `Vector4.ScaleDot` | src/core/math/Vector4.h:369-372 | `(k v).v == k |v|^2` |
| `Vector4.ProjectedIdempotent` | src/core/math/Vector4.h:395-401 | projecting a projection onto the same vector changes nothing |
| `Vector4.ProjectionsDisagreeAtEpsilon` | src/core/math/Vector4.h:395-412 | at `|v|^2 == EPS` the in-place expression gives zero while `v.Projected(v)` is the non-zero `v` |
| `Vector4.LerpMidpoint` | src/core/math/Vector4.h:415-418 | `Lerp(b, 0.5)` is the component-wise average |
| `Vector4.NormalizedOfUnit` | src/core/math/Vector4.h:351-355 | a vector of squared length 1 is its own normalised form |
| `Vector4.ScaleDivRoundTrip` | src/core/math/Vector4.h:264-270 | above `EPS` (either sign), dividing undoes scaling: `v * s / s == v` |
| `Vector4.ProjectedOntoUnit` | src/core/math/Vector4.h:395-401 | projecting onto a unit vector `n` gives `n` scaled by the dot product with `n` |
| `Vector4.ReflectedAcrossUnitNormal` | src/core/math/Vector4.h:421-425 | across a unit normal, the reflection's component along the normal is the negated original component, and the reflection is the vector minus twice its projection onto the normal |
| `Vector4.ReflectedNegatesNormal` | src/core/math/Vector4.h:421-425 | the same for any normal whose normalised form has unit length, with respect to that normalised form |
| `Vector4.ScaleScale` | src/core/math/Vector4.h:252-255 | scaling twice is scaling by the product of the factors |
| `Vector4.ProjectedIsOrthogonalMultiple` | src/core/math/Vector4.h:395-401 | for `|v|^2 >= EPS`, any multiple `v * k` whose residual `a - v * k` is orthogonal to `v` is `a.Projected(v)`, so the projection is the unique such multiple |
| `Vector4.ReflectAcrossUnitInvolutive` | src/core/math/Vector4.h:421-425 | reflecting twice across a unit normal gives back the vector |
| `Vector4.NormalizedHasUnitLength` | src/core/math/Vector4.h:351-355 | with an exact square root, a vector longer than `EPS` normalises to length 1 |
| `Vector4.NormalizedIdempotent` | src/core/math/Vector4.h:351-355 | with an exact square root, normalising twice is normalising once |
| `Vector4.ReflectedInvolutive` | src/core/math/Vector4.h:421-425 | with an exact square root, reflecting twice across any normal gives back the vector |

## Left out

- IEEE floating point. The model computes over exact reals. Rounding, overflow, NaN and infinities are not modelled, and so neither is the tolerance that the `==` used in the tests absorbs. Results that the C++ code reaches only within rounding error hold exactly here.
- `std::sqrt` is abstract. `Sqrt` is any non-negative, strictly increasing function with `Sqrt(0) == 0` and `Sqrt(1) == 1`. Results that need it to square back exactly take `SqrtIsExact()` as a hypothesis.
- `AngleTo` and the static `Angle` (`Vector2.h:300-305, 367-370`, `Vector3.h:349-354, 416-419`, `Vector4.h:381-386`) rely on `atan2` and `acos`, transcendental functions with no exact-real counterpart here.
- `ToString` and `operator<<` are output formatting through `ostringstream`.
- The converting constructors and converting assignments between `Vector<float>` and `Vector<double>` are narrowing casts. They are meaningful only with finite precision.
- The `Vector4` static mirrors (`Vector4.h:88-94`) are declared but never defined. A call to them does not link.
- The debug-build `assert` in `operator/` and `operator/=` aborts on a divisor within `EPS`. The model follows the release path, which returns or stores the zero vector.
- The compound operators, `Normalize`, `Project` and `Reflect` return `*this` for chaining. The methods return nothing, and their effect is stated on the object.
- `Types.h` only names the fixed-width types. `Vector3.cpp` only includes the header. Neither is part of this model.
- `Vector3.Vec3.Div`, `Vector4.Vec4.Div`: the round trip `v / s * s == v` above `EPS` is proved as the separate lemmas `ScaleUndoesDiv` rather than as an `ensures` of the function.
- `Vector3.Vec3.Normalized`, `Vector4.Vec4.Normalized`: the fact that the result times the length gives back the vector is proved as the separate lemmas `NormalizedScalesBack`.
- `Vector4.Vec4.Projected`, `Vector3.Vec3.Projected`: parallelism to `v` is stated through the cross product, which in `Vector4` covers only the `xyz` part. For `Vector4` the lemma `ProjectedIsOrthogonalMultiple` supplies the rest: the projection is the only multiple of `v` that leaves an orthogonal residual. `ProjectedIdempotent` adds that the result is a fixed point of projecting onto `v`.
