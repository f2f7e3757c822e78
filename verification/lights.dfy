/** The three light sources of the ray tracer: `DirectionalLight`,
    `PointLight` and `SpotLight`, each answering the same three questions
    about a point of the scene: the ray from the point toward the light,
    the distance to the light, and the intensity that reaches the point. */
module Lights {
  import opened Basics
  import opened Vectors
  import opened Rays

  /** `kc`, `kl`, `kq` are the constant, linear and quadratic attenuation
      coefficients. A spot light stores its direction already negated. */
  datatype Light =
    | Directional(intensity: Vec3, direction: Vec3)
    | Point(intensity: Vec3, position: Vec3, kc: real, kl: real, kq: real)
    | Spot(intensity: Vec3, position: Vec3, direction: Vec3, kc: real, kl: real, kq: real)

  /** `DirectionalLight(intensity, direction)`: the direction is normalised. */
  function MakeDirectional(num: Numerics, intensity: Vec3, direction: Vec3): Light {
    Directional(intensity, Normalize(num, direction))
  }

  function MakePoint(intensity: Vec3, position: Vec3, kc: real, kl: real, kq: real): Light {
    Point(intensity, position, kc, kl, kq)
  }

  /** `SpotLight(...)`: the direction is normalised and negated, so it points
      from the lit point back toward the lamp. */
  function MakeSpot(num: Numerics, intensity: Vec3, position: Vec3, direction: Vec3, kc: real, kl: real, kq: real): Light {
    Spot(intensity, position, Scale(-1.0, Normalize(num, direction)), kc, kl, kq)
  }

  /** `get_light_ray(p)`: from `p` toward the light. A directional light
      shines along one direction everywhere; the others aim at their
      position. The direction passes through `normalize` twice (once here,
      once in `Ray`). */
  function GetLightRay(num: Numerics, l: Light, p: Vec3): (r: Ray)
    ensures r.origin == p
  {
    match l
    case Directional(_, direction) => MakeRay(num, p, direction)
    case Point(_, position, _, _, _) => MakeRay(num, p, Normalize(num, Sub(position, p)))
    case Spot(_, position, _, _, _, _) => MakeRay(num, p, Normalize(num, Sub(position, p)))
  }

  /** The light ray of a point or spot light points at the lamp: it is
      parallel to `position − p` and has the same sense. A directional
      light's ray is parallel to its direction, with the same sense. */
  lemma {:induction false} LightRayAimsAtLight(num: Numerics, l: Light, p: Vec3)
    ensures var target := if l.Directional? then l.direction else Sub(l.position, p);
            Cross(GetLightRay(num, l, p).direction, target) == Zero &&
            0.0 <= Dot(GetLightRay(num, l, p).direction, target)
  {
    var target := if l.Directional? then l.direction else Sub(l.position, p);
    var k1 := NormalizeFactor(num, target);
    if l.Directional? {
      PositiveMultipleSameDirection(k1, target);
    } else {
      var k2 := NormalizeFactor(num, Scale(k1, target));
      ScaleScale(k2, k1, target);
      PositiveProduct(k2, k1);
      PositiveMultipleSameDirection(k2 * k1, target);
    }
  }

  /** `get_distance_from_light(p)`: `np.inf` for a directional light, the
      Euclidean distance to the lamp otherwise. */
  function GetDistanceFromLight(num: Numerics, l: Light, p: Vec3): (r: Ext)
    ensures r.Inf? <==> l.Directional?
    ensures r.Fin? ==> 0.0 <= r.v
  {
    if l.Directional? then Inf else Fin(Norm(num, Sub(p, l.position)))
  }

  /** With an exact square root, the distance squared is the squared length
      of `p − position`, so the lamp itself is the only point at distance 0. */
  lemma DistanceSquared(num: Numerics, l: Light, p: Vec3)
    requires ExactSqrt(num)
    requires !l.Directional?
    ensures GetDistanceFromLight(num, l, p).v * GetDistanceFromLight(num, l, p).v == Dot(Sub(p, l.position), Sub(p, l.position))
  {
    DotSelfNonNeg(Sub(p, l.position));
    SqrtSquares(num, Dot(Sub(p, l.position), Sub(p, l.position)));
  }

  /** The denominator `kc + kl·d + kq·d²`. */
  function Attenuation(l: Light, d: real): real
    requires !l.Directional?
  {
    l.kc + l.kl * d + l.kq * d * d
  }

  /** The coefficients the physical model expects: a positive constant term
      and no negative term. */
  predicate ValidLight(l: Light) {
    !l.Directional? ==> 0.0 < l.kc && 0.0 <= l.kl && 0.0 <= l.kq
  }

  /** With such coefficients the denominator is positive at every distance,
      and grows with the distance. */
  lemma AttenuationPositiveAndGrowing(l: Light, d1: real, d2: real)
    requires !l.Directional? && ValidLight(l)
    requires 0.0 <= d1 <= d2
    ensures 0.0 < Attenuation(l, d1) <= Attenuation(l, d2)
  {
    assert l.kl * d1 <= l.kl * d2;
    assert d1 * d1 <= d2 * d2;
    assert l.kq * (d1 * d1) <= l.kq * (d2 * d2);
    SquareNonNeg(d1);
    assert 0.0 <= l.kq * (d1 * d1);
  }

  /** The intensity can be computed at `p` (no division by zero). */
  predicate IntensityDefined(num: Numerics, l: Light, p: Vec3) {
    !l.Directional? ==> Attenuation(l, GetDistanceFromLight(num, l, p).v) != 0.0
  }

  lemma ValidLightIntensityDefined(num: Numerics, l: Light, p: Vec3)
    requires ValidLight(l)
    ensures IntensityDefined(num, l, p)
  {
    if !l.Directional? {
      var d := GetDistanceFromLight(num, l, p).v;
      AttenuationPositiveAndGrowing(l, d, d);
    }
  }

  /** `get_intensity(p)`: a directional light is not attenuated; a point
      light is divided by the attenuation; a spot light is also weighted by
      the cosine between its (negated) axis and the direction from the lamp
      to `p`. */
  function GetIntensity(num: Numerics, l: Light, p: Vec3): (r: Vec3)
    requires IntensityDefined(num, l, p)
    ensures l.Point? ==> Scale(Attenuation(l, GetDistanceFromLight(num, l, p).v), r) == l.intensity
    ensures l.Spot? ==> Scale(Attenuation(l, GetDistanceFromLight(num, l, p).v), r) ==
                          Scale(Dot(l.direction, Normalize(num, Sub(p, l.position))), l.intensity)
  {
    match l
    case Directional(intensity, _) => intensity
    case Point(intensity, _, _, _, _) =>
      var a := Attenuation(l, GetDistanceFromLight(num, l, p).v);
      ScaleByQuotient(a, 1.0, intensity);
      Scale(1.0 / a, intensity)
    case Spot(intensity, position, direction, _, _, _) =>
      var a := Attenuation(l, GetDistanceFromLight(num, l, p).v);
      var c := Dot(direction, Normalize(num, Sub(p, position)));
      ScaleByQuotient(a, c, intensity);
      Scale(c / a, intensity)
  }

  /** Scaling by `c / a` and then by `a` is scaling by `c`. */
  lemma ScaleByQuotient(a: real, c: real, v: Vec3)
    requires a != 0.0
    ensures Scale(a, Scale(c / a, v)) == Scale(c, v)
  {
    ScaleScale(a, c / a, v);
    assert a * (c / a) == c;
  }

  /** A directional light delivers the same intensity everywhere. */
  lemma DirectionalIsUniform(num: Numerics, l: Light, p: Vec3, q: Vec3)
    requires l.Directional?
    ensures GetIntensity(num, l, p) == GetIntensity(num, l, q) == l.intensity
  {
  }

  /** A spot light is the point light at the same position, weighted by the
      cosine of the angle off its axis. */
  lemma SpotIsWeightedPoint(num: Numerics, l: Light, p: Vec3)
    requires l.Spot? && IntensityDefined(num, l, p)
    ensures var pl := Point(l.intensity, l.position, l.kc, l.kl, l.kq);
            GetIntensity(num, l, p) ==
              Scale(Dot(l.direction, Normalize(num, Sub(p, l.position))), GetIntensity(num, pl, p))
  {
    var pl := Point(l.intensity, l.position, l.kc, l.kl, l.kq);
    var a := Attenuation(l, GetDistanceFromLight(num, l, p).v);
    var c := Dot(l.direction, Normalize(num, Sub(p, l.position)));
    assert Attenuation(pl, GetDistanceFromLight(num, pl, p).v) == a;
    assert GetIntensity(num, pl, p) == Scale(1.0 / a, l.intensity);
    assert GetIntensity(num, l, p) == Scale(c / a, l.intensity);
    ScaleByReciprocal(c, a, l.intensity);
  }

  /** Scaling by `c / a` is scaling by `1 / a` and then by `c`. */
  lemma ScaleByReciprocal(c: real, a: real, v: Vec3)
    requires a != 0.0
    ensures Scale(c / a, v) == Scale(c, Scale(1.0 / a, v))
  {
    ScaleScale(c, 1.0 / a, v);
    assert c / a == c * (1.0 / a);
  }

  /** A point light of non-negative intensity fades with distance: a farther
      point receives no more light, component by component. */
  lemma {:induction false} PointLightFades(num: Numerics, l: Light, p: Vec3, q: Vec3)
    requires l.Point? && ValidLight(l)
    requires 0.0 <= l.intensity.x && 0.0 <= l.intensity.y && 0.0 <= l.intensity.z
    requires GetDistanceFromLight(num, l, p).v <= GetDistanceFromLight(num, l, q).v
    requires IntensityDefined(num, l, p) && IntensityDefined(num, l, q)
    ensures GetIntensity(num, l, q).x <= GetIntensity(num, l, p).x &&
            GetIntensity(num, l, q).y <= GetIntensity(num, l, p).y &&
            GetIntensity(num, l, q).z <= GetIntensity(num, l, p).z
  {
    var dp := GetDistanceFromLight(num, l, p).v;
    var dq := GetDistanceFromLight(num, l, q).v;
    AttenuationPositiveAndGrowing(l, dp, dq);
    var ap, aq := Attenuation(l, dp), Attenuation(l, dq);
    ReciprocalShrinks(ap, aq);
    ScaleMonotone(1.0 / aq, 1.0 / ap, l.intensity);
  }

  lemma ReciprocalShrinks(a: real, b: real)
    requires 0.0 < a <= b
    ensures 0.0 < 1.0 / b <= 1.0 / a
  {
  }

  lemma ScaleMonotone(j: real, k: real, v: Vec3)
    requires j <= k
    requires 0.0 <= v.x && 0.0 <= v.y && 0.0 <= v.z
    ensures Scale(j, v).x <= Scale(k, v).x && Scale(j, v).y <= Scale(k, v).y && Scale(j, v).z <= Scale(k, v).z
  {
    assert (k - j) * v.x >= 0.0;
    assert (k - j) * v.y >= 0.0;
    assert (k - j) * v.z >= 0.0;
  }
}
