/** Three-component vectors over the reals, and the two vector helpers of the
    ray tracer (`normalize`, `reflected`).

    Square roots cannot be computed exactly, so the model never computes one:
    the square root used by `np.linalg.norm` (and the power function used for
    the specular exponent) travel as a `Numerics` value that every caller
    passes in. The only thing the type promises is that the square root is
    never negative; lemmas that need `sqrt(x) * sqrt(x) == x` say so with
    `ExactSqrt`. */
module Vectors {

  datatype Vec3 = Vec3(x: real, y: real, z: real)

  /** A real function whose value is never negative (what `np.sqrt` returns). */
  type NonNegFn = f: real -> real | forall x: real :: 0.0 <= f(x) witness (x: real) => 0.0

  /** The floating-point primitives the source takes from numpy. */
  datatype Numerics = Numerics(sqrt: NonNegFn, pow: (real, real) -> real)

  /** The square root is exact on non-negative arguments. */
  ghost predicate ExactSqrt(num: Numerics) {
    forall x: real :: 0.0 <= x ==> num.sqrt(x) * num.sqrt(x) == x
  }

  lemma SqrtSquares(num: Numerics, x: real)
    requires ExactSqrt(num) && 0.0 <= x
    ensures num.sqrt(x) * num.sqrt(x) == x
  {
  }

  const Zero := Vec3(0.0, 0.0, 0.0)

  function Add(a: Vec3, b: Vec3): Vec3 { Vec3(a.x + b.x, a.y + b.y, a.z + b.z) }

  function Sub(a: Vec3, b: Vec3): Vec3 { Vec3(a.x - b.x, a.y - b.y, a.z - b.z) }

  function Neg(a: Vec3): Vec3 { Vec3(-a.x, -a.y, -a.z) }

  function Scale(k: real, a: Vec3): Vec3 { Vec3(k * a.x, k * a.y, k * a.z) }

  /** Component-wise product (numpy's `*` on two arrays). */
  function Mul(a: Vec3, b: Vec3): Vec3 { Vec3(a.x * b.x, a.y * b.y, a.z * b.z) }

  function Dot(a: Vec3, b: Vec3): real { a.x * b.x + a.y * b.y + a.z * b.z }

  function Cross(a: Vec3, b: Vec3): Vec3 {
    Vec3(a.y * b.z - a.z * b.y, a.z * b.x - a.x * b.z, a.x * b.y - a.y * b.x)
  }

  /** `np.linalg.norm(v)`. */
  function Norm(num: Numerics, v: Vec3): (r: real)
    ensures 0.0 <= r
  {
    num.sqrt(Dot(v, v))
  }

  /** `normalize(v)`: `v / ‖v‖`. numpy yields NaN for the zero vector; the
      model returns the vector unchanged instead. */
  function Normalize(num: Numerics, v: Vec3): Vec3 {
    var n := Norm(num, v);
    if n == 0.0 then v else Scale(1.0 / n, v)
  }

  /** The mirror image of `v` about the plane with normal `n`, before normalisation. */
  function Mirror(v: Vec3, n: Vec3): Vec3 {
    Sub(v, Scale(2.0 * Dot(v, n), n))
  }

  /** `reflected(vector, normal)`. */
  function Reflected(num: Numerics, v: Vec3, n: Vec3): Vec3 {
    Normalize(num, Mirror(v, n))
  }

  lemma DotSelfNonNeg(v: Vec3)
    ensures 0.0 <= Dot(v, v)
  {
    SquareNonNeg(v.x);
    SquareNonNeg(v.y);
    SquareNonNeg(v.z);
  }

  lemma SquareNonNeg(a: real)
    ensures 0.0 <= a * a
  {
    if a < 0.0 {
      assert a * a == (-a) * (-a);
    }
  }

  lemma PositiveProduct(a: real, b: real)
    requires 0.0 < a && 0.0 <= b
    ensures 0.0 <= a * b
    ensures 0.0 < b ==> 0.0 < a * b
  {
  }

  lemma CrossScaleSelf(k: real, v: Vec3)
    ensures Cross(Scale(k, v), v) == Zero
  {
    assert k * v.y * v.z == k * v.z * v.y;
    assert k * v.z * v.x == k * v.x * v.z;
    assert k * v.x * v.y == k * v.y * v.x;
  }

  lemma DotScale(k: real, a: Vec3, b: Vec3)
    ensures Dot(Scale(k, a), b) == k * Dot(a, b)
    ensures Dot(a, Scale(k, b)) == k * Dot(a, b)
  {
  }

  lemma DotLinear(a: Vec3, b: Vec3, c: Vec3)
    ensures Dot(Add(a, b), c) == Dot(a, c) + Dot(b, c)
    ensures Dot(Sub(a, b), c) == Dot(a, c) - Dot(b, c)
    ensures Dot(c, Add(a, b)) == Dot(c, a) + Dot(c, b)
    ensures Dot(c, Sub(a, b)) == Dot(c, a) - Dot(c, b)
    ensures Dot(a, b) == Dot(b, a)
  {
  }

  /** With an exact square root, `normalize` of a non-zero vector has unit length. */
  lemma NormalizeIsUnit(num: Numerics, v: Vec3)
    requires ExactSqrt(num)
    requires Norm(num, v) != 0.0
    ensures Dot(Normalize(num, v), Normalize(num, v)) == 1.0
  {
    DotSelfNonNeg(v);
    var n := Norm(num, v);
    var k := 1.0 / n;
    SqrtSquares(num, Dot(v, v));
    DotScaleSquared(k, v);
    SquareProduct(k, n);
    InverseProduct(n);
  }

  lemma DotScaleSquared(k: real, v: Vec3)
    ensures Dot(Scale(k, v), Scale(k, v)) == (k * k) * Dot(v, v)
  {
    DotScale(k, v, Scale(k, v));
    DotScale(k, v, v);
  }

  lemma SquareProduct(a: real, b: real)
    ensures (a * a) * (b * b) == (a * b) * (a * b)
  {
  }

  lemma InverseProduct(n: real)
    requires n != 0.0
    ensures (1.0 / n) * n == 1.0
  {
  }

  /** `normalize` keeps the direction: for any square root, the result is a
      positive multiple of the input. */
  lemma NormalizeSameDirection(num: Numerics, v: Vec3)
    ensures Cross(Normalize(num, v), v) == Zero
    ensures 0.0 <= Dot(Normalize(num, v), v)
  {
    DotSelfNonNeg(v);
    var n := Norm(num, v);
    var k := if n == 0.0 then 1.0 else 1.0 / n;
    assert 0.0 < k;
    assert Normalize(num, v) == Scale(k, v);
    CrossScaleSelf(k, v);
    DotScale(k, v, v);
    PositiveProduct(k, Dot(v, v));
    assert Dot(Normalize(num, v), v) == k * Dot(v, v);
  }

  /** `normalize` multiplies by a positive factor. */
  lemma NormalizeFactor(num: Numerics, v: Vec3) returns (k: real)
    ensures 0.0 < k && Normalize(num, v) == Scale(k, v)
  {
    var n := Norm(num, v);
    k := if n == 0.0 then 1.0 else 1.0 / n;
  }

  /** A positive multiple of `v` is parallel to `v` and points the same way. */
  lemma PositiveMultipleSameDirection(k: real, v: Vec3)
    requires 0.0 < k
    ensures Cross(Scale(k, v), v) == Zero
    ensures 0.0 <= Dot(Scale(k, v), v)
  {
    CrossScaleSelf(k, v);
    DotScale(k, v, v);
    DotSelfNonNeg(v);
    PositiveProduct(k, Dot(v, v));
  }

  lemma AddAssoc(a: Vec3, b: Vec3, c: Vec3)
    ensures Add(Add(a, b), c) == Add(a, Add(b, c))
  {
  }

  lemma ScaleScale(k: real, j: real, v: Vec3)
    ensures Scale(k, Scale(j, v)) == Scale(k * j, v)
  {
  }

  /** Reflection about a unit normal flips the normal component ... */
  lemma MirrorFlipsNormalComponent(v: Vec3, n: Vec3)
    requires Dot(n, n) == 1.0
    ensures Dot(Mirror(v, n), n) == -Dot(v, n)
  {
    var a := Dot(v, n);
    DotScale(2.0 * a, n, n);
    assert Dot(Mirror(v, n), n) == a - 2.0 * a * Dot(n, n);
  }

  /** ... so reflecting twice about the same unit normal gives the vector back. */
  lemma {:induction false} MirrorInvolution(v: Vec3, n: Vec3)
    requires Dot(n, n) == 1.0
    ensures Mirror(Mirror(v, n), n) == v
  {
    MirrorFlipsNormalComponent(v, n);
    var a := Dot(v, n);
    var m := Mirror(v, n);
    assert Dot(m, n) == -a;
    assert Mirror(m, n) == Sub(m, Scale(-2.0 * a, n));
  }

  /** Reflection preserves length. */
  lemma MirrorPreservesLength(v: Vec3, n: Vec3)
    requires Dot(n, n) == 1.0
    ensures Dot(Mirror(v, n), Mirror(v, n)) == Dot(v, v)
  {
    var a := Dot(v, n);
    var c := 2.0 * a;
    var s := Scale(c, n);
    DotScaleSquared(c, n);
    DotScale(c, v, n);
    DotSubSelf(v, s);
    assert c * c == 2.0 * (c * a);
  }

  /** Going round a triangle `a → b → c`, the cross products of each edge
      with the way from its start to any point `p` add up to the triangle's
      own cross product `(b − a) × (c − a)`, whatever `p` is. */
  lemma EdgeCrossesSum(a: Vec3, b: Vec3, c: Vec3, p: Vec3)
    ensures Add(Add(Cross(Sub(b, a), Sub(p, a)), Cross(Sub(c, b), Sub(p, b))), Cross(Sub(a, c), Sub(p, c))) ==
            Cross(Sub(b, a), Sub(c, a))
  {
    var u, v, w := Sub(b, a), Sub(c, a), Sub(p, a);
    assert Sub(c, b) == Sub(v, u) && Sub(p, b) == Sub(w, u) && Sub(a, c) == Neg(v) && Sub(p, c) == Sub(w, v);
    PlanarSum(u.y, u.z, v.y, v.z, w.y, w.z);
    PlanarSum(u.z, u.x, v.z, v.x, w.z, w.x);
    PlanarSum(u.x, u.y, v.x, v.y, w.x, w.y);
  }

  /** `EdgeCrossesSum` in one coordinate plane, with `u = b − a`,
      `v = c − a` and `w = p − a`. */
  lemma PlanarSum(u1: real, u2: real, v1: real, v2: real, w1: real, w2: real)
    ensures (u1 * w2 - u2 * w1) + ((v1 - u1) * (w2 - u2) - (v2 - u2) * (w1 - u1)) + ((-v1) * (w2 - v2) - (-v2) * (w1 - v1)) ==
            u1 * v2 - u2 * v1
  {
  }

  lemma DotSubSelf(a: Vec3, b: Vec3)
    ensures Dot(Sub(a, b), Sub(a, b)) == Dot(a, a) - 2.0 * Dot(a, b) + Dot(b, b)
  {
  }
}
