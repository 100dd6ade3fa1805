/** The 3-component vector of vec3.h, used as point, direction and colour.
    Components are exact reals. `std::sqrt` is a parameter `sqrt` that the
    caller promises is exact on non-negative arguments (`ExactSqrt`). */
module Vectors {

  datatype Vec3 = Vec3(x: real, y: real, z: real)

  const Zero := Vec3(0.0, 0.0, 0.0)

  /** color(1, 1, 1) */
  const White := Vec3(1.0, 1.0, 1.0)

  /** What the model assumes of `std::sqrt`: the non-negative square root. */
  ghost predicate ExactSqrt(sqrt: real -> real) {
    forall d: real :: 0.0 <= d ==> 0.0 <= sqrt(d) && sqrt(d) * sqrt(d) == d
  }

  /** unary operator- */
  function Neg(v: Vec3): (r: Vec3)
    ensures Add(v, r) == Zero
  {
    Vec3(-v.x, -v.y, -v.z)
  }

  /** operator[]: component i of 0, 1, 2 (any other index reads outside the struct) */
  function Get(v: Vec3, i: int): (c: real)
    requires 0 <= i < 3
    ensures i == 0 ==> c == v.x
    ensures i == 1 ==> c == v.y
    ensures i == 2 ==> c == v.z
  {
    if i == 0 then v.x else if i == 1 then v.y else v.z
  }

  /** operator+= : the value left in the receiver */
  function AddAssign(v: Vec3, u: Vec3): (r: Vec3)
    ensures r == Add(v, u)
  {
    Vec3(v.x + u.x, v.y + u.y, v.z + u.z)
  }

  /** operator*=(t): the value left in the receiver */
  function MulAssign(v: Vec3, t: real): (r: Vec3)
    ensures r == Scale(t, v)
  {
    Vec3(v.x * t, v.y * t, v.z * t)
  }

  /** operator/=(t), written in the source as `*this *= 1/t` */
  function DivAssign(v: Vec3, t: real): (r: Vec3)
    requires t != 0.0
    ensures r == Div(v, t)
  {
    MulAssign(v, 1.0 / t)
  }

  function LengthSquared(v: Vec3): real {
    v.x * v.x + v.y * v.y + v.z * v.z
  }

  function Length(v: Vec3, sqrt: real -> real): (r: real)
    requires ExactSqrt(sqrt)
    ensures 0.0 <= r && r * r == LengthSquared(v)
  {
    LengthSquaredNonNegative(v);
    SqrtOf(sqrt, LengthSquared(v));
    sqrt(LengthSquared(v))
  }

  function Add(u: Vec3, v: Vec3): Vec3 {
    Vec3(u.x + v.x, u.y + v.y, u.z + v.z)
  }

  /** operator+ is commutative, and subtracting either summand undoes it. */
  lemma AddInverse(u: Vec3, v: Vec3)
    ensures Add(u, v) == Add(v, u)
    ensures Sub(Add(u, v), v) == u && Sub(Add(u, v), u) == v
  {
  }

  /** binary operator- */
  function Sub(u: Vec3, v: Vec3): (r: Vec3)
    ensures r == Add(u, Neg(v))
    ensures Add(r, v) == u
  {
    Vec3(u.x - v.x, u.y - v.y, u.z - v.z)
  }

  /** component-wise operator*(vec3, vec3), used to attenuate colours:
      white leaves a colour unchanged, black absorbs it, and the channels
      of the product add up to the dot product. */
  function Mul(u: Vec3, v: Vec3): (r: Vec3)
    ensures u == White ==> r == v
    ensures v == White ==> r == u
    ensures u == Zero || v == Zero ==> r == Zero
    ensures r.x + r.y + r.z == Dot(u, v)
  {
    Vec3(u.x * v.x, u.y * v.y, u.z * v.z)
  }

  /** operator*(double, vec3) */
  function Scale(t: real, v: Vec3): Vec3 {
    Vec3(t * v.x, t * v.y, t * v.z)
  }

  /** operator*(vec3, double), defined in the source as `t * v`: the same
      value `*=` leaves, undone by `/ t`. */
  function ScaleRight(v: Vec3, t: real): (r: Vec3)
    ensures r == MulAssign(v, t)
    ensures t != 0.0 ==> Div(r, t) == v
  {
    Scale(t, v)
  }

  /** operator/(vec3, double), defined in the source as `(1/t) * v` */
  function Div(v: Vec3, t: real): (r: Vec3)
    requires t != 0.0
    ensures Scale(t, r) == v
  {
    Scale(1.0 / t, v)
  }

  function Dot(u: Vec3, v: Vec3): real {
    u.x * v.x + u.y * v.y + u.z * v.z
  }

  function Cross(u: Vec3, v: Vec3): (r: Vec3)
    ensures Dot(r, u) == 0.0 && Dot(r, v) == 0.0
  {
    Vec3(u.y * v.z - u.z * v.y, u.z * v.x - u.x * v.z, u.x * v.y - u.y * v.x)
  }

  /** unit_vector(v) = v / v.length(); the source leaves the zero vector undefined */
  function UnitVector(v: Vec3, sqrt: real -> real): (r: Vec3)
    requires ExactSqrt(sqrt)
    requires v != Zero
    ensures LengthSquared(r) == 1.0
    ensures Scale(Length(v, sqrt), r) == v
  {
    LengthPositive(v, sqrt);
    UnitVectorLength(v, sqrt);
    Div(v, Length(v, sqrt))
  }

  /** |v|^2 is never negative. */
  lemma LengthSquaredNonNegative(v: Vec3)
    ensures 0.0 <= LengthSquared(v)
  {
    SquareNonNegative(v.x);
    SquareNonNegative(v.y);
    SquareNonNegative(v.z);
  }

  /** |v|^2 is positive exactly away from the zero vector. */
  lemma LengthSquaredPositive(v: Vec3)
    requires v != Zero
    ensures 0.0 < LengthSquared(v)
  {
    SumOfSquaresPositive(v.x, v.y, v.z);
    calc {
      LengthSquared(v);
    ==
      v.x * v.x + v.y * v.y + v.z * v.z;
    >
      0.0;
    }
  }

  lemma SumOfSquaresPositive(x: real, y: real, z: real)
    requires x != 0.0 || y != 0.0 || z != 0.0
    ensures 0.0 < x * x + y * y + z * z
  {
    SquareNonNegative(x);
    SquareNonNegative(y);
    SquareNonNegative(z);
    SumOfNonNegatives(x * x, y * y, z * z);
  }

  lemma SumOfNonNegatives(a: real, b: real, c: real)
    requires 0.0 <= a && 0.0 <= b && 0.0 <= c
    ensures 0.0 < a || 0.0 < b || 0.0 < c ==> 0.0 < a + b + c
  {
  }

  /** A non-zero vector has a positive length. */
  lemma LengthPositive(v: Vec3, sqrt: real -> real)
    requires ExactSqrt(sqrt)
    requires v != Zero
    ensures 0.0 < Length(v, sqrt)
  {
    var r := Length(v, sqrt);
    LengthSquaredPositive(v);
    calc {
      r * r;
    ==
      LengthSquared(v);
    >
      0.0;
    }
    PositiveRoot(r);
  }

  lemma PositiveRoot(a: real)
    requires 0.0 <= a && 0.0 < a * a
    ensures 0.0 < a
  {
  }

  lemma SquareNonNegative(a: real)
    ensures 0.0 <= a * a
    ensures a != 0.0 ==> 0.0 < a * a
  {
    if a < 0.0 {
      assert a * a == (-a) * (-a);
      PositiveProduct(-a, -a);
    } else if a > 0.0 {
      PositiveProduct(a, a);
    }
  }

  /** The two facts `ExactSqrt` gives about one argument. */
  lemma SqrtOf(sqrt: real -> real, d: real)
    requires ExactSqrt(sqrt)
    requires 0.0 <= d
    ensures 0.0 <= sqrt(d) && sqrt(d) * sqrt(d) == d
  {
  }

  lemma PositiveProduct(a: real, b: real)
    requires 0.0 < a && 0.0 < b
    ensures 0.0 < a * b
  {
  }

  /** Squaring is strictly increasing on the non-negative reals. */
  lemma SquareStrict(a: real, b: real)
    requires 0.0 <= a < b
    ensures a * a < b * b
  {
    assert b * b - a * a == (b - a) * (b + a);
    PositiveProduct(b - a, b + a);
  }

  lemma UnitVectorLength(v: Vec3, sqrt: real -> real)
    requires ExactSqrt(sqrt)
    requires v != Zero
    ensures 0.0 < Length(v, sqrt) && LengthSquared(Div(v, Length(v, sqrt))) == 1.0
  {
    LengthPositive(v, sqrt);
    var len := Length(v, sqrt);
    var k := 1.0 / len;
    LengthSquaredScale(k, v);
    calc {
      LengthSquared(Div(v, len));
    ==
      LengthSquared(Scale(k, v));
    ==
      k * k * LengthSquared(v);
    ==
      k * k * (len * len);
    ==
      (k * len) * (k * len);
    ==
      1.0;
    }
  }

  lemma LengthSquaredScale(k: real, v: Vec3)
    ensures LengthSquared(Scale(k, v)) == k * k * LengthSquared(v)
  {
  }

  lemma DotSymmetric(u: Vec3, v: Vec3)
    ensures Dot(u, v) == Dot(v, u)
  {
  }

  lemma DotSelf(v: Vec3)
    ensures Dot(v, v) == LengthSquared(v)
    ensures 0.0 <= Dot(v, v)
  {
  }

  lemma CrossAntiCommutative(u: Vec3, v: Vec3)
    ensures Cross(u, v) == Neg(Cross(v, u))
  {
  }

  lemma DotNeg(u: Vec3, v: Vec3)
    ensures Dot(u, Neg(v)) == -Dot(u, v)
  {
  }

  lemma NegInvolution(v: Vec3)
    ensures Neg(Neg(v)) == v
  {
  }

  lemma DivIsReciprocalScale(v: Vec3, t: real)
    requires t != 0.0
    ensures Div(v, t) == Scale(1.0 / t, v)
    ensures DivAssign(v, t) == Div(v, t)
  {
  }

  /** A scaled difference expands into the three scalar products the sphere
      test computes. */
  lemma LengthSquaredAffine(t: real, d: Vec3, w: Vec3)
    ensures LengthSquared(Sub(Scale(t, d), w))
         == t * t * LengthSquared(d) - 2.0 * t * Dot(d, w) + LengthSquared(w)
  {
    SumAffine(t, d.x, d.y, d.z, w.x, w.y, w.z,
              LengthSquared(Sub(Scale(t, d), w)), LengthSquared(d), Dot(d, w), LengthSquared(w));
  }

  lemma SumAffine(t: real, d1: real, d2: real, d3: real, w1: real, w2: real, w3: real,
                  q: real, dd: real, dw: real, ww: real)
    requires q == (t * d1 - w1) * (t * d1 - w1) + (t * d2 - w2) * (t * d2 - w2)
                  + (t * d3 - w3) * (t * d3 - w3)
    requires dd == d1 * d1 + d2 * d2 + d3 * d3
    requires dw == d1 * w1 + d2 * w2 + d3 * w3
    requires ww == w1 * w1 + w2 * w2 + w3 * w3
    ensures q == t * t * dd - 2.0 * t * dw + ww
  {
    SquareAffine(t, d1, w1);
    SquareAffine(t, d2, w2);
    SquareAffine(t, d3, w3);
  }

  lemma SquareAffine(t: real, d: real, w: real)
    ensures (t * d - w) * (t * d - w) == t * t * (d * d) - 2.0 * t * (d * w) + w * w
  {
  }
}
