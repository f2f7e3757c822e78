/** The part of `Sphere.intersect` that numpy does: `np.roots` on the
    coefficients of a quadratic, the `np.isreal(roots[0])` test and
    `roots.sort()`. The roots are written with the square root the caller
    supplies; with an exact square root they are the two roots of the
    polynomial. */
module Roots {
  import opened Basics
  import opened Vectors

  /** The value of `a·x² + b·x + c`. */
  function Poly(a: real, b: real, c: real, x: real): real {
    a * x * x + b * x + c
  }

  function Discriminant(a: real, b: real, c: real): real {
    b * b - 4.0 * a * c
  }

  /** The two real roots in ascending order, or `None` when the roots are
      complex (negative discriminant). */
  function SortedRealRoots(num: Numerics, a: real, b: real, c: real): (r: Option<(real, real)>)
    requires a != 0.0
    ensures r.Some? <==> 0.0 <= Discriminant(a, b, c)
    ensures r.Some? ==> r.value.0 <= r.value.1
  {
    var disc := Discriminant(a, b, c);
    if disc < 0.0 then None
    else
      var s := num.sqrt(disc);
      var r1 := (-b - s) / (2.0 * a);
      var r2 := (-b + s) / (2.0 * a);
      if r1 <= r2 then Some((r1, r2)) else Some((r2, r1))
  }

  /** `a·(x − r1)·(x − r2)` is the polynomial when `r1`, `r2` are the
      quadratic-formula roots built on an exact square root of the
      discriminant. */
  lemma {:induction false} Factorisation(a: real, b: real, c: real, s: real, x: real)
    requires a != 0.0
    requires s * s == Discriminant(a, b, c)
    ensures Poly(a, b, c, x) == a * ((x - (-b - s) / (2.0 * a)) * (x - (-b + s) / (2.0 * a)))
  {
    var r1 := (-b - s) / (2.0 * a);
    var r2 := (-b + s) / (2.0 * a);
    assert r1 + r2 == -b / a;
    assert 2.0 * a * r1 == -b - s;
    assert 2.0 * a * r2 == -b + s;
    assert (2.0 * a * r1) * (2.0 * a * r2) == (-b - s) * (-b + s);
    assert (-b - s) * (-b + s) == b * b - s * s;
    assert 4.0 * a * a * (r1 * r2) == 4.0 * a * c;
    assert a * (r1 * r2) == c;
    assert a * (r1 + r2) == -b;
    calc {
      a * ((x - r1) * (x - r2));
      a * (x * x - (r1 + r2) * x + r1 * r2);
      a * x * x - a * (r1 + r2) * x + a * (r1 * r2);
      a * x * x + b * x + c;
    }
  }

  lemma ProductZero(p: real, q: real)
    requires p * q == 0.0
    ensures p == 0.0 || q == 0.0
  {
  }

  /** The quadratic formula, for an exact square root `s` of the discriminant. */
  lemma {:induction false} QuadraticFormula(a: real, b: real, c: real, s: real, x: real)
    requires a != 0.0
    requires s * s == Discriminant(a, b, c)
    ensures Poly(a, b, c, (-b - s) / (2.0 * a)) == 0.0
    ensures Poly(a, b, c, (-b + s) / (2.0 * a)) == 0.0
    ensures Poly(a, b, c, x) == 0.0 ==> x == (-b - s) / (2.0 * a) || x == (-b + s) / (2.0 * a)
  {
    var r1 := (-b - s) / (2.0 * a);
    var r2 := (-b + s) / (2.0 * a);
    Factorisation(a, b, c, s, r1);
    Factorisation(a, b, c, s, r2);
    Factorisation(a, b, c, s, x);
    if Poly(a, b, c, x) == 0.0 {
      ProductZero(a, (x - r1) * (x - r2));
      ProductZero(x - r1, x - r2);
    }
  }

  /** With an exact square root, the two values are exactly the roots of
      the polynomial: both are roots, and every root is one of them. */
  lemma SortedRealRootsAreTheRoots(num: Numerics, a: real, b: real, c: real, x: real)
    requires ExactSqrt(num)
    requires a != 0.0
    requires SortedRealRoots(num, a, b, c).Some?
    ensures Poly(a, b, c, SortedRealRoots(num, a, b, c).value.0) == 0.0
    ensures Poly(a, b, c, SortedRealRoots(num, a, b, c).value.1) == 0.0
    ensures Poly(a, b, c, x) == 0.0 ==>
              x == SortedRealRoots(num, a, b, c).value.0 || x == SortedRealRoots(num, a, b, c).value.1
  {
    var s := FormulaRoots(num, a, b, c, x);
    var r := SortedRealRoots(num, a, b, c).value;
    assert r == ((-b - s) / (2.0 * a), (-b + s) / (2.0 * a)) || r == ((-b + s) / (2.0 * a), (-b - s) / (2.0 * a));
  }

  /** The roots are the quadratic formula's, built on the exact square root
      `s` of the discriminant. */
  lemma FormulaRoots(num: Numerics, a: real, b: real, c: real, x: real) returns (s: real)
    requires ExactSqrt(num)
    requires a != 0.0
    requires 0.0 <= Discriminant(a, b, c)
    ensures s == num.sqrt(Discriminant(a, b, c))
    ensures Poly(a, b, c, (-b - s) / (2.0 * a)) == 0.0
    ensures Poly(a, b, c, (-b + s) / (2.0 * a)) == 0.0
    ensures Poly(a, b, c, x) == 0.0 ==> x == (-b - s) / (2.0 * a) || x == (-b + s) / (2.0 * a)
  {
    var disc := Discriminant(a, b, c);
    s := num.sqrt(disc);
    SqrtSquares(num, disc);
    QuadraticFormula(a, b, c, s, x);
  }

  /** With no real roots the polynomial never vanishes. */
  lemma NoRealRootsNoZero(num: Numerics, a: real, b: real, c: real, x: real)
    requires a != 0.0
    requires SortedRealRoots(num, a, b, c).None?
    ensures Poly(a, b, c, x) != 0.0
  {
    var disc := Discriminant(a, b, c);
    var y := 2.0 * a * x + b;
    assert y * y == 4.0 * a * Poly(a, b, c, x) + disc;
    SquareNonNeg(y);
  }
}
