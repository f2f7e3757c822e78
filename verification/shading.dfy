/** `get_current_color`: the colour seen along a ray at the point where it
    meets an object, with ambient light, a diffuse and a specular term for
    every light that is not in shadow, and a recursive reflected ray up to
    `max_depth` levels. */
module Shading {
  import opened Basics
  import opened Vectors
  import opened Rays
  import opened Objects
  import opened Lights

  /** What every call of `get_current_color` shares: the global ambient
      colour, the lights and the objects. */
  datatype Scene = Scene(ambient: Vec3, lights: seq<Light>, objects: seq<Object3D>)

  predicate ValidLights(scene: Scene) {
    forall i :: 0 <= i < |scene.lights| ==> ValidLight(scene.lights[i])
  }

  /** The hit point is moved by `1e-10` along the normal before shadow and
      reflected rays leave it, so that they do not meet the object they
      start on. */
  const ShadowOffset: real := 0.0000000001

  function Shifted(num: Numerics, o: Object3D, p: Vec3): Vec3
    requires !o.shape.Mesh?
  {
    Add(p, Scale(ShadowOffset, ComputeNormal(num, o, p)))
  }

  /** The ray toward light `l` from the shifted hit point. */
  function ShadowRay(num: Numerics, o: Object3D, p: Vec3, l: Light): (r: Ray)
    requires !o.shape.Mesh?
    ensures r.origin == Shifted(num, o, p)
  {
    GetLightRay(num, l, Shifted(num, o, p))
  }

  /** Light `l` reaches `p` when nothing lies on the shadow ray, or the
      first thing on it lies beyond the light. The light's distance is
      measured from `p` itself, not from the shifted point. */
  predicate Lit(num: Numerics, scene: Scene, o: Object3D, p: Vec3, l: Light)
    requires !o.shape.Mesh?
  {
    var h := Nearest(num, ShadowRay(num, o, p, l), scene.objects);
    h.Miss? || Less(GetDistanceFromLight(num, l, p), h.dist)
  }

  /** A directional light is infinitely far, so any object on the shadow
      ray blocks it. */
  lemma DirectionalLitIffUnobstructed(num: Numerics, scene: Scene, o: Object3D, p: Vec3, l: Light)
    requires !o.shape.Mesh? && l.Directional?
    ensures Lit(num, scene, o, p, l) <==> Nearest(num, ShadowRay(num, o, p, l), scene.objects).Miss?
  {
  }

  /** A point or spot light is blocked exactly by an object strictly
      closer to the shifted point than the light is to the hit point. */
  lemma PointLitIffNothingCloser(num: Numerics, scene: Scene, o: Object3D, p: Vec3, l: Light)
    requires !o.shape.Mesh? && !l.Directional?
    ensures Lit(num, scene, o, p, l) <==>
              forall i :: 0 <= i < |scene.objects| && IsFinite(Intersect(num, scene.objects[i], ShadowRay(num, o, p, l))) ==>
                GetDistanceFromLight(num, l, p).v < Intersect(num, scene.objects[i], ShadowRay(num, o, p, l)).dist.v
  {
    var ray := ShadowRay(num, o, p, l);
    var h := Nearest(num, ray, scene.objects);
    var d := GetDistanceFromLight(num, l, p).v;
    var hs := Answers(num, scene.objects, ray);
    if h.At? {
      NearestIsClosestFirst(num, ray, scene.objects);
      var k :| 0 <= k < |scene.objects| && Intersect(num, scene.objects[k], ray) == h;
      assert IsFinite(Intersect(num, scene.objects[k], ray));
    }
  }

  /** The Phong terms of one light of intensity `i`, for the unit normal
      `nrm`, the direction `toLight` toward the light and the direction
      `view` back toward the viewer: per channel,
      `kd·I·(N·L) + ks·I·(R·V)^shininess` with `R` the reflection of `−L`
      about `N`. Neither dot product is clamped. */
  function Phong(num: Numerics, m: Material, i: Vec3, nrm: Vec3, toLight: Vec3, view: Vec3): (r: Vec3)
    ensures var nl, rv := Dot(nrm, toLight), Dot(Reflected(num, Neg(toLight), nrm), view);
            r.x == m.diffuse.x * i.x * nl + m.specular.x * i.x * num.pow(rv, m.shininess) &&
            r.y == m.diffuse.y * i.y * nl + m.specular.y * i.y * num.pow(rv, m.shininess) &&
            r.z == m.diffuse.z * i.z * nl + m.specular.z * i.z * num.pow(rv, m.shininess)
  {
    var diffuse := Scale(Dot(nrm, toLight), Mul(m.diffuse, i));
    var rv := Dot(Reflected(num, Neg(toLight), nrm), view);
    var specular := Scale(num.pow(rv, m.shininess), Mul(m.specular, i));
    Add(diffuse, specular)
  }

  /** The diffuse term is not clamped at zero: a light behind the surface
      (`N·L < 0`) on a material without specular reflection darkens every
      channel where the diffuse coefficient and the intensity are
      positive. */
  lemma LightFromBehindDarkens(num: Numerics, m: Material, i: Vec3, nrm: Vec3, toLight: Vec3, view: Vec3)
    requires m.specular == Zero && Dot(nrm, toLight) < 0.0
    requires 0.0 < m.diffuse.x * i.x && 0.0 < m.diffuse.y * i.y && 0.0 < m.diffuse.z * i.z
    ensures var r := Phong(num, m, i, nrm, toLight, view);
            r.x < 0.0 && r.y < 0.0 && r.z < 0.0
  {
    var nl := Dot(nrm, toLight);
    NegativeProduct(m.diffuse.x * i.x, nl);
    NegativeProduct(m.diffuse.y * i.y, nl);
    NegativeProduct(m.diffuse.z * i.z, nl);
  }

  lemma NegativeProduct(a: real, b: real)
    requires 0.0 < a && b < 0.0
    ensures a * b < 0.0
  {
  }

  /** The contribution of one light at `p`, seen along `ray`: the Phong
      terms for the object's normal at `p`, the direction of the light ray
      from the shifted point, the light's intensity at `p` itself, and the
      reversed ray direction as the view direction. */
  function LightTerm(num: Numerics, o: Object3D, ray: Ray, p: Vec3, l: Light): Vec3
    requires !o.shape.Mesh? && ValidLight(l)
  {
    ValidLightIntensityDefined(num, l, p);
    Phong(num, o.material, GetIntensity(num, l, p), ComputeNormal(num, o, p),
          ShadowRay(num, o, p, l).direction, Neg(ray.direction))
  }

  /** Where the parts of a light's term are taken: the normal and the
      intensity at `p`, but the direction `L` toward the light from the
      shifted point. `L` points at the light: along a directional light's
      direction, or at the lamp as seen from the shifted point; with an
      exact square root it is a unit vector. */
  lemma LightTermAimsAtLight(num: Numerics, o: Object3D, ray: Ray, p: Vec3, l: Light)
    requires !o.shape.Mesh? && ValidLight(l)
    ensures var toLight := ShadowRay(num, o, p, l).direction;
            var target := if l.Directional? then l.direction else Sub(l.position, Shifted(num, o, p));
            IntensityDefined(num, l, p) &&
            LightTerm(num, o, ray, p, l) ==
              Phong(num, o.material, GetIntensity(num, l, p), ComputeNormal(num, o, p), toLight, Neg(ray.direction)) &&
            Cross(toLight, target) == Zero && 0.0 <= Dot(toLight, target) &&
            (ExactSqrt(num) && Norm(num, target) != 0.0 ==> Dot(toLight, toLight) == 1.0)
  {
    ValidLightIntensityDefined(num, l, p);
    var q := Shifted(num, o, p);
    LightRayAimsAtLight(num, l, q);
    var target := if l.Directional? then l.direction else Sub(l.position, q);
    if ExactSqrt(num) && Norm(num, target) != 0.0 {
      NormalizeIsUnit(num, target);
      if !l.Directional? {
        var w := Normalize(num, target);
        SqrtSquares(num, Dot(w, w));
        NormalizeIsUnit(num, w);
      }
    }
  }

  /** What light `l` adds at `p`: its term when it reaches `p`, nothing
      when it is in shadow. */
  function Contribution(num: Numerics, scene: Scene, o: Object3D, ray: Ray, p: Vec3, l: Light): Vec3
    requires !o.shape.Mesh? && ValidLight(l)
  {
    if Lit(num, scene, o, p, l) then LightTerm(num, o, ray, p, l) else Zero
  }

  /** The contribution of each light in `ls`, in list order. */
  function Contributions(num: Numerics, scene: Scene, o: Object3D, ray: Ray, p: Vec3, ls: seq<Light>): (cs: seq<Vec3>)
    requires !o.shape.Mesh?
    requires forall i :: 0 <= i < |ls| ==> ValidLight(ls[i])
    ensures |cs| == |ls|
    ensures forall i :: 0 <= i < |ls| ==> cs[i] == Contribution(num, scene, o, ray, p, ls[i])
  {
    seq(|ls|, i requires 0 <= i < |ls| => Contribution(num, scene, o, ray, p, ls[i]))
  }

  /** The running `color +=` of the light loop, in list order. */
  function SumVec(cs: seq<Vec3>): Vec3 {
    if |cs| == 0 then Zero else Add(SumVec(cs[..|cs| - 1]), cs[|cs| - 1])
  }

  /** The colour before reflection: `ambient_obj · ambient` plus every light
      that reaches `p`. */
  function LocalColor(num: Numerics, scene: Scene, o: Object3D, ray: Ray, p: Vec3): (r: Vec3)
    requires !o.shape.Mesh? && ValidLights(scene)
    ensures |scene.lights| == 0 ==> r == Mul(o.material.ambient, scene.ambient)
  {
    Add(Mul(o.material.ambient, scene.ambient), SumVec(Contributions(num, scene, o, ray, p, scene.lights)))
  }

  /** Each pass of the light loop adds that light's contribution to the
      colour the earlier lights left: the colour for the lights `ls + [l]`
      is the colour for `ls` plus what `l` adds. */
  lemma LocalColorAddsEachLight(num: Numerics, scene: Scene, o: Object3D, ray: Ray, p: Vec3, ls: seq<Light>, l: Light)
    requires !o.shape.Mesh? && ValidLights(scene) && scene.lights == ls + [l]
    ensures ValidLights(scene.(lights := ls)) && ValidLight(l)
    ensures LocalColor(num, scene, o, ray, p) ==
              Add(LocalColor(num, scene.(lights := ls), o, ray, p), Contribution(num, scene, o, ray, p, l))
  {
    assert forall i :: 0 <= i < |ls| ==> ls[i] == scene.lights[i];
    assert l == scene.lights[|ls|];
    var before := scene.(lights := ls);
    var cs := Contributions(num, scene, o, ray, p, scene.lights);
    var bs := Contributions(num, before, o, ray, p, ls);
    forall i | 0 <= i < |ls|
      ensures bs[i] == cs[i]
    {
      assert Lit(num, before, o, p, ls[i]) == Lit(num, scene, o, p, ls[i]);
    }
    assert cs[..|cs| - 1] == bs;
    AddAssoc(Mul(o.material.ambient, scene.ambient), SumVec(bs), cs[|cs| - 1]);
  }

  /** Lights in full shadow contribute nothing: when no light reaches `p`
      only the ambient term is left. */
  lemma ShadowedLightsAddNothing(num: Numerics, scene: Scene, o: Object3D, ray: Ray, p: Vec3)
    requires !o.shape.Mesh? && ValidLights(scene)
    requires forall i :: 0 <= i < |scene.lights| ==> !Lit(num, scene, o, p, scene.lights[i])
    ensures LocalColor(num, scene, o, ray, p) == Mul(o.material.ambient, scene.ambient)
  {
    SumOfZeros(Contributions(num, scene, o, ray, p, scene.lights));
  }

  lemma {:induction false} SumOfZeros(cs: seq<Vec3>)
    requires forall i :: 0 <= i < |cs| ==> cs[i] == Zero
    ensures SumVec(cs) == Zero
  {
    if |cs| > 0 {
      SumOfZeros(cs[..|cs| - 1]);
    }
  }

  /** The running sum of the light loop splits over any division of the
      list: the sum over `a + b` is the sum over `a` plus the sum over `b`. */
  lemma {:induction false} SumSplits(a: seq<Vec3>, b: seq<Vec3>)
    ensures SumVec(a + b) == Add(SumVec(a), SumVec(b))
  {
    if |b| == 0 {
      assert a + b == a;
    } else {
      var b' := b[..|b| - 1];
      assert (a + b)[..|a + b| - 1] == a + b';
      assert (a + b)[|a + b| - 1] == b[|b| - 1];
      SumSplits(a, b');
      AddAssoc(SumVec(a), SumVec(b'), b[|b| - 1]);
    }
  }

  /** `get_current_color(...)` at recursion `level`. `None` stands for the
      `NameError` the source raises when a reflective object is lit by an
      empty light list (the shifted point is only bound inside the light
      loop). The object is never a mesh: `nearest_intersected_object`
      answers with one of its triangles. */
  function GetCurrentColor(num: Numerics, scene: Scene, obj: Option<Object3D>, ray: Ray, p: Vec3, maxDepth: int, level: int): (r: Option<Vec3>)
    requires level <= maxDepth
    requires obj.Some? ==> !obj.value.shape.Mesh?
    requires ValidLights(scene)
    ensures obj.None? || level == maxDepth ==> r == Some(Zero)
    ensures |scene.lights| > 0 ==> r.Some?
    ensures |scene.lights| == 0 ==>
              (r.None? <==> obj.Some? && level < maxDepth && 0.0 < obj.value.material.reflection)
    decreases maxDepth - level
  {
    if obj.None? || level == maxDepth then Some(Zero)
    else
      var o := obj.value;
      var local := LocalColor(num, scene, o, ray, p);
      if o.material.reflection > 0.0 then
        if |scene.lights| == 0 then None
        else
          match Bounce(num, scene, o, ray, p)
          case None => Some(local)
          case Some((next, rRay, q)) =>
            WithReflection(local, o.material.reflection, GetCurrentColor(num, scene, Some(next), rRay, q, maxDepth, level + 1))
      else Some(local)
  }

  /** The reflected ray: from the shifted point, along the mirror image of
      the incoming direction about the normal. */
  function ReflectedRay(num: Numerics, o: Object3D, ray: Ray, p: Vec3): (r: Ray)
    requires !o.shape.Mesh?
    ensures r.origin == Shifted(num, o, p)
  {
    MakeRay(num, Shifted(num, o, p), Reflected(num, ray.direction, ComputeNormal(num, o, p)))
  }

  /** `color += reflected_color * reflection`, passing an error through. */
  function WithReflection(local: Vec3, reflection: real, reflected: Option<Vec3>): (r: Option<Vec3>)
    ensures r.Some? <==> reflected.Some?
  {
    match reflected
    case None => None
    case Some(c) => Some(Add(local, Scale(reflection, c)))
  }

  /** Where the reflected ray goes next: the object it meets, the ray, and
      the point where it meets it; `None` when it escapes. */
  function Bounce(num: Numerics, scene: Scene, o: Object3D, ray: Ray, p: Vec3): (r: Option<(Object3D, Ray, Vec3)>)
    requires !o.shape.Mesh?
    ensures r.None? <==> Nearest(num, ReflectedRay(num, o, ray, p), scene.objects).Miss?
    ensures r.Some? ==> !r.value.0.shape.Mesh? && r.value.0 == Nearest(num, ReflectedRay(num, o, ray, p), scene.objects).obj
    ensures r.Some? ==> r.value.1 == ReflectedRay(num, o, ray, p)
    ensures r.Some? ==> r.value.2 == PointAt(r.value.1, Nearest(num, r.value.1, scene.objects).dist.v)
  {
    var rRay := ReflectedRay(num, o, ray, p);
    var next := Nearest(num, rRay, scene.objects);
    if next.At? then
      match GetNewPoint(rRay, next.dist.v)
      case None => None
      case Some(q) => Some((next.obj, rRay, q))
    else None
  }

  /** A reflective object adds `reflection` times the colour seen along the
      reflected ray at the next object it meets, one level deeper. */
  lemma ReflectionAddsNextColor(num: Numerics, scene: Scene, o: Object3D, ray: Ray, p: Vec3, maxDepth: int, level: int)
    requires level < maxDepth && !o.shape.Mesh? && ValidLights(scene) && |scene.lights| > 0
    requires 0.0 < o.material.reflection
    requires Nearest(num, ReflectedRay(num, o, ray, p), scene.objects).At?
    ensures var rRay := ReflectedRay(num, o, ray, p);
            var next := Nearest(num, rRay, scene.objects);
            GetCurrentColor(num, scene, Some(o), ray, p, maxDepth, level) ==
              Some(Add(LocalColor(num, scene, o, ray, p),
                       Scale(o.material.reflection,
                             GetCurrentColor(num, scene, Some(next.obj), rRay, PointAt(rRay, next.dist.v), maxDepth, level + 1).value)))
  {
  }

  /** A matte object (reflection at most 0) shows its local colour only. */
  lemma MatteIsLocal(num: Numerics, scene: Scene, o: Object3D, ray: Ray, p: Vec3, maxDepth: int, level: int)
    requires level < maxDepth && !o.shape.Mesh? && ValidLights(scene)
    requires o.material.reflection <= 0.0
    ensures GetCurrentColor(num, scene, Some(o), ray, p, maxDepth, level) == Some(LocalColor(num, scene, o, ray, p))
  {
  }

  /** When the reflected ray escapes, only the local colour is seen. */
  lemma ReflectionEscapes(num: Numerics, scene: Scene, o: Object3D, ray: Ray, p: Vec3, maxDepth: int, level: int)
    requires level < maxDepth && !o.shape.Mesh? && ValidLights(scene) && |scene.lights| > 0
    requires Nearest(num, ReflectedRay(num, o, ray, p), scene.objects).Miss?
    ensures GetCurrentColor(num, scene, Some(o), ray, p, maxDepth, level) == Some(LocalColor(num, scene, o, ray, p))
  {
  }

  /** On the last level the reflected colour is black, so only the local
      colour is seen, whatever the material. */
  lemma LastLevelIsLocal(num: Numerics, scene: Scene, o: Object3D, ray: Ray, p: Vec3, maxDepth: int)
    requires !o.shape.Mesh? && ValidLights(scene) && |scene.lights| > 0
    ensures GetCurrentColor(num, scene, Some(o), ray, p, maxDepth, maxDepth - 1) == Some(LocalColor(num, scene, o, ray, p))
  {
    var local := LocalColor(num, scene, o, ray, p);
    assert Add(local, Scale(o.material.reflection, Zero)) == local;
  }
}
