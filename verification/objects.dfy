/** The scene objects of the ray tracer (`Plane`, `Triangle`, `Sphere`,
    `Mesh`), their normals, their ray intersections, and
    `Ray.nearest_intersected_object` over a list of them.

    The material that `set_material` attaches after construction is a field
    of every object here. A mesh's triangles are built by
    `create_triangle_list` and receive the mesh's material through
    `apply_materials_to_triangles` (`ApplyMaterialsToTriangles`). */
module Objects {
  import opened Basics
  import opened Vectors
  import opened Rays
  import opened Roots
  import opened TriangleNormal

  datatype Material = Material(ambient: Vec3, diffuse: Vec3, specular: Vec3, shininess: real, reflection: real)

  /** A face of a mesh: three indices into the vertex list. */
  type Face = (int, int, int)

  datatype Shape =
    | Plane(normal: Vec3, point: Vec3)
    | Triangle(a: Vec3, b: Vec3, c: Vec3, normal: Vec3)
    | Sphere(center: Vec3, radius: real)
    | Mesh(vertices: seq<Vec3>, faces: seq<Face>, triangles: seq<Object3D>)

  datatype Object3D = Object3D(shape: Shape, material: Material)

  // ---------------------------------------------------------------- construction

  /** `Plane(normal, point)`: the normal is normalised. */
  function MakePlane(num: Numerics, normal: Vec3, point: Vec3, m: Material): Object3D {
    Object3D(Plane(Normalize(num, normal), point), m)
  }

  /** `Triangle(a, b, c)`: the normal is computed once, here. */
  function MakeTriangle(num: Numerics, a: Vec3, b: Vec3, c: Vec3, m: Material): Object3D {
    Object3D(Triangle(a, b, c, HeuristicNormal(num, a, b, c)), m)
  }

  function MakeSphere(center: Vec3, radius: real, m: Material): Object3D {
    Object3D(Sphere(center, radius), m)
  }

  /** All three indices of the face are valid Python indices of the list. */
  predicate ValidFace(vertices: seq<Vec3>, f: Face) {
    -|vertices| <= f.0 < |vertices| && -|vertices| <= f.1 < |vertices| && -|vertices| <= f.2 < |vertices|
  }

  /** The triangle a face stands for. */
  function FaceTriangle(num: Numerics, vertices: seq<Vec3>, f: Face, m: Material): Object3D
    requires ValidFace(vertices, f)
  {
    MakeTriangle(num, PyIndex(vertices, f.0).value, PyIndex(vertices, f.1).value, PyIndex(vertices, f.2).value, m)
  }

  /** `Mesh.create_triangle_list`: one triangle per face, in face order;
      `None` when a face index is out of range (the comprehension raises). */
  function CreateTriangleList(num: Numerics, vertices: seq<Vec3>, faces: seq<Face>, m: Material): (r: Option<seq<Object3D>>)
    ensures r.Some? <==> forall i :: 0 <= i < |faces| ==> ValidFace(vertices, faces[i])
    ensures r.Some? ==> |r.value| == |faces|
    ensures r.Some? ==> forall i :: 0 <= i < |faces| ==> r.value[i] == FaceTriangle(num, vertices, faces[i], m)
  {
    if forall i :: 0 <= i < |faces| ==> ValidFace(vertices, faces[i]) then
      Some(seq(|faces|, i requires 0 <= i < |faces| => FaceTriangle(num, vertices, faces[i], m)))
    else None
  }

  /** `Mesh(v_list, f_list)`. The triangles carry material `m` (what
      `apply_materials_to_triangles` gives them once the mesh has it). */
  function MakeMesh(num: Numerics, vertices: seq<Vec3>, faces: seq<Face>, m: Material): Option<Object3D> {
    match CreateTriangleList(num, vertices, faces, m)
    case None => None
    case Some(ts) => Some(Object3D(Mesh(vertices, faces, ts), m))
  }

  /** `Object3D.set_material`. */
  function SetMaterial(o: Object3D, m: Material): Object3D {
    o.(material := m)
  }

  /** `Mesh.apply_materials_to_triangles`: every triangle takes the mesh's
      material; nothing else changes. */
  function ApplyMaterialsToTriangles(o: Object3D): (r: Object3D)
    requires o.shape.Mesh?
    ensures r.material == o.material && r.shape.Mesh?
    ensures r.shape.vertices == o.shape.vertices && r.shape.faces == o.shape.faces
    ensures |r.shape.triangles| == |o.shape.triangles|
    ensures forall i :: 0 <= i < |r.shape.triangles| ==>
              r.shape.triangles[i].material == o.material &&
              r.shape.triangles[i].shape == o.shape.triangles[i].shape
  {
    var ts := o.shape.triangles;
    o.(shape := o.shape.(triangles := seq(|ts|, i requires 0 <= i < |ts| => SetMaterial(ts[i], o.material))))
  }

  /** Every object a constructor builds: a mesh holds triangles only. */
  predicate WellFormed(o: Object3D) {
    o.shape.Mesh? ==> forall i :: 0 <= i < |o.shape.triangles| ==> o.shape.triangles[i].shape.Triangle?
  }

  /** Meshes built by `MakeMesh` are well formed, with one triangle per face,
      built from the face's three vertices. */
  lemma MakeMeshTriangles(num: Numerics, vertices: seq<Vec3>, faces: seq<Face>, m: Material)
    ensures MakeMesh(num, vertices, faces, m).Some? <==>
              forall i :: 0 <= i < |faces| ==> ValidFace(vertices, faces[i])
    ensures MakeMesh(num, vertices, faces, m).Some? ==>
              var o := MakeMesh(num, vertices, faces, m).value;
              WellFormed(o) && o.shape.Mesh? && |o.shape.triangles| == |faces| &&
              forall i :: 0 <= i < |faces| ==> o.shape.triangles[i] == FaceTriangle(num, vertices, faces[i], m)
  {
  }

  // ---------------------------------------------------------------- normals

  /** `compute_normal(P)`. A mesh has none (`Mesh` defines no
      `compute_normal`), so the caller must not ask a mesh. */
  function ComputeNormal(num: Numerics, o: Object3D, p: Vec3): (n: Vec3)
    requires !o.shape.Mesh?
    ensures o.shape.Triangle? ==> n == o.shape.normal
    ensures o.shape.Plane? ==> n == o.shape.normal
    ensures o.shape.Sphere? ==> n == Normalize(num, Sub(p, o.shape.center))
  {
    match o.shape
    case Plane(normal, _) => normal
    case Triangle(_, _, _, normal) => normal
    case Sphere(center, _) => Normalize(num, Sub(p, center))
  }

  /** Away from the centre, a sphere's normal is a unit vector pointing
      outwards: a positive multiple of the direction from the centre to the
      point. */
  lemma SphereNormalPointsOutward(num: Numerics, o: Object3D, p: Vec3)
    requires o.shape.Sphere? && ExactSqrt(num)
    requires Norm(num, Sub(p, o.shape.center)) != 0.0
    ensures var n := ComputeNormal(num, o, p);
            Dot(n, n) == 1.0 &&
            Cross(n, Sub(p, o.shape.center)) == Zero &&
            0.0 < Dot(n, Sub(p, o.shape.center))
  {
    var v := Sub(p, o.shape.center);
    NormalizeIsUnit(num, v);
    NormalizeSameDirection(num, v);
    var k := NormalizeFactor(num, v);
    DotScale(k, v, v);
    DotSelfNonNeg(v);
    SqrtSquares(num, Dot(v, v));
    var r := Norm(num, v);
    assert Dot(v, v) == r * r;
    PositiveProduct(r, r);
    PositiveProduct(k, Dot(v, v));
  }

  /** The triangle normal is the one the constructor computed, wherever it
      is asked for. */
  lemma TriangleNormalIsCached(num: Numerics, a: Vec3, b: Vec3, c: Vec3, m: Material, p: Vec3, q: Vec3)
    ensures ComputeNormal(num, MakeTriangle(num, a, b, c, m), p) == HeuristicNormal(num, a, b, c)
    ensures ComputeNormal(num, MakeTriangle(num, a, b, c, m), p) == ComputeNormal(num, MakeTriangle(num, a, b, c, m), q)
  {
  }

  // ---------------------------------------------------------------- intersections

  /** A distance `intersect` may report: `+∞` or strictly positive. */
  predicate InFront(d: Ext) {
    d.Inf? || 0.0 < d.v
  }

  /** `Plane.intersect`. There is no parallel guard: numpy divides by zero,
      giving `+∞` when the numerator is positive (a hit at `+∞`), `-∞` or
      NaN otherwise (no hit). */
  function IntersectPlane(o: Object3D, ray: Ray): (r: Hit<Object3D>)
    requires o.shape.Plane?
    ensures r.At? ==> r.obj == o && InFront(r.dist)
  {
    var num := Dot(Sub(o.shape.point, ray.origin), o.shape.normal);
    var den := Dot(o.shape.normal, ray.direction);
    if den == 0.0 then
      if num > 0.0 then At(o, Inf) else Miss
    else
      var t := num / den;
      if t > 0.0 then At(o, Fin(t)) else Miss
  }

  /** A finite plane hit exists exactly when the ray is not parallel and the
      parameter is positive, and the hit point lies on the plane. */
  lemma PlaneHitOnPlane(o: Object3D, ray: Ray)
    requires o.shape.Plane?
    ensures IsFinite(IntersectPlane(o, ray)) <==>
              Dot(o.shape.normal, ray.direction) != 0.0 &&
              0.0 < Dot(Sub(o.shape.point, ray.origin), o.shape.normal) / Dot(o.shape.normal, ray.direction)
    ensures IsFinite(IntersectPlane(o, ray)) ==>
              Dot(Sub(PointAt(ray, IntersectPlane(o, ray).dist.v), o.shape.point), o.shape.normal) == 0.0
    ensures Dot(o.shape.normal, ray.direction) == 0.0 ==> !IsFinite(IntersectPlane(o, ray))
  {
    var r := IntersectPlane(o, ray);
    if IsFinite(r) {
      var n, q := o.shape.normal, o.shape.point;
      var t := r.dist.v;
      var den := Dot(n, ray.direction);
      var num := Dot(Sub(q, ray.origin), n);
      assert t * den == num;
      DotLinear(ray.origin, Scale(t, ray.direction), n);
      DotLinear(PointAt(ray, t), q, n);
      DotLinear(q, ray.origin, n);
      DotScale(t, ray.direction, n);
      DotLinear(n, ray.direction, Zero);
      assert Dot(ray.direction, n) == den;
    }
  }

  /** `Triangle.__onTriangle(p)`: `p` is on the inner side of all three
      edges, as seen along the cached normal. */
  predicate OnTriangle(s: Shape, p: Vec3)
    requires s.Triangle?
  {
    Dot(Cross(Sub(s.b, s.a), Sub(p, s.a)), s.normal) >= 0.0 &&
    Dot(Cross(Sub(s.c, s.b), Sub(p, s.b)), s.normal) >= 0.0 &&
    Dot(Cross(Sub(s.a, s.c), Sub(p, s.c)), s.normal) >= 0.0
  }

  /** The parameter at which the ray meets the triangle's supporting plane. */
  function TriangleParameter(s: Shape, ray: Ray): real
    requires s.Triangle? && Dot(s.normal, ray.direction) != 0.0
  {
    var d := -Dot(s.normal, s.a);
    -(Dot(s.normal, ray.origin) + d) / Dot(s.normal, ray.direction)
  }

  /** `Triangle.intersect`. */
  function IntersectTriangle(o: Object3D, ray: Ray): (r: Hit<Object3D>)
    requires o.shape.Triangle?
    ensures r.At? ==> r.obj == o && r.dist.Fin? && 0.0 < r.dist.v
  {
    var s := o.shape;
    if Dot(s.normal, ray.direction) != 0.0 then
      var t := TriangleParameter(s, ray);
      match GetNewPoint(ray, t)
      case Some(p) => if OnTriangle(s, p) then At(o, Fin(t)) else Miss
      case None => Miss
    else Miss
  }

  /** A triangle is hit exactly when the ray is not parallel to it, the
      plane point is in front of the origin, and it passes the three edge
      tests; the hit point lies on the supporting plane. */
  lemma TriangleHitIff(o: Object3D, ray: Ray)
    requires o.shape.Triangle?
    ensures IntersectTriangle(o, ray).At? <==>
              Dot(o.shape.normal, ray.direction) != 0.0 &&
              0.0 < TriangleParameter(o.shape, ray) &&
              OnTriangle(o.shape, PointAt(ray, TriangleParameter(o.shape, ray)))
    ensures IntersectTriangle(o, ray).At? ==>
              Dot(o.shape.normal, Sub(PointAt(ray, IntersectTriangle(o, ray).dist.v), o.shape.a)) == 0.0
  {
    var r := IntersectTriangle(o, ray);
    if r.At? {
      var s := o.shape;
      var n := s.normal;
      var t := r.dist.v;
      var den := Dot(n, ray.direction);
      assert t == TriangleParameter(s, ray);
      assert t * den == Dot(n, s.a) - Dot(n, ray.origin);
      DotLinear(ray.origin, Scale(t, ray.direction), n);
      DotLinear(PointAt(ray, t), s.a, n);
      DotLinear(n, PointAt(ray, t), s.a);
      DotLinear(n, ray.origin, Scale(t, ray.direction));
      DotScale(t, n, ray.direction);
    }
  }

  /** The ray-sphere polynomial: `|D|²·t² + 2·D·(O − C)·t + |O − C|² − r²`. */
  function SphereCoefficients(s: Shape, ray: Ray): (real, real, real)
    requires s.Sphere?
  {
    var oc := Sub(ray.origin, s.center);
    (Dot(ray.direction, ray.direction), Dot(Scale(2.0, ray.direction), oc), Dot(oc, oc) - s.radius * s.radius)
  }

  /** `Sphere.intersect`: the smaller real root if it is positive, else the
      larger one if it is positive, else no hit. A zero leading coefficient
      (a zero direction) is taken as no hit. */
  function IntersectSphere(num: Numerics, o: Object3D, ray: Ray): (r: Hit<Object3D>)
    requires o.shape.Sphere?
    ensures r.At? ==> r.obj == o && r.dist.Fin? && 0.0 < r.dist.v
  {
    var (a, b, c) := SphereCoefficients(o.shape, ray);
    if a == 0.0 then Miss
    else
      match SortedRealRoots(num, a, b, c)
      case None => Miss
      case Some((lo, hi)) =>
        if lo > 0.0 then At(o, Fin(lo))
        else if hi > 0.0 then At(o, Fin(hi))
        else Miss
  }

  /** With an exact square root, the sphere reports the nearest point in
      front of the origin where the ray meets the sphere, and reports
      nothing only when there is no such point. */
  lemma {:induction false} SphereHitIsNearestPositiveRoot(num: Numerics, o: Object3D, ray: Ray, x: real)
    requires ExactSqrt(num)
    requires o.shape.Sphere?
    requires SphereCoefficients(o.shape, ray).0 != 0.0
    ensures var (a, b, c) := SphereCoefficients(o.shape, ray);
            IntersectSphere(num, o, ray).At? ==> Poly(a, b, c, IntersectSphere(num, o, ray).dist.v) == 0.0
    ensures var (a, b, c) := SphereCoefficients(o.shape, ray);
            0.0 < x && Poly(a, b, c, x) == 0.0 ==>
              IntersectSphere(num, o, ray).At? && IntersectSphere(num, o, ray).dist.v <= x
  {
    var (a, b, c) := SphereCoefficients(o.shape, ray);
    match SortedRealRoots(num, a, b, c)
    case None =>
      NoRealRootsNoZero(num, a, b, c, x);
    case Some((lo, hi)) =>
      SortedRealRootsAreTheRoots(num, a, b, c, x);
  }

  /** `intersect` of a plane, triangle or sphere; a mesh is handled by
      `Intersect`, which only calls this on its triangles. */
  function IntersectFlat(num: Numerics, o: Object3D, ray: Ray): (r: Hit<Object3D>)
    ensures r.At? ==> r.obj == o && InFront(r.dist) && !o.shape.Mesh?
  {
    match o.shape
    case Plane(_, _) => IntersectPlane(o, ray)
    case Triangle(_, _, _, _) => IntersectTriangle(o, ray)
    case Sphere(_, _) => IntersectSphere(num, o, ray)
    case Mesh(_, _, _) => Miss
  }

  /** The answers of a list of objects, in list order. */
  function FlatAnswers(num: Numerics, objs: seq<Object3D>, ray: Ray): (hs: seq<Hit<Object3D>>)
    ensures |hs| == |objs|
    ensures forall i :: 0 <= i < |objs| ==> hs[i] == IntersectFlat(num, objs[i], ray)
  {
    seq(|objs|, i requires 0 <= i < |objs| => IntersectFlat(num, objs[i], ray))
  }

  /** `o.intersect(ray)`. `Mesh.intersect` is `nearest_intersected_object`
      over the mesh's triangles, so it answers with a triangle, never with
      the mesh. */
  function Intersect(num: Numerics, o: Object3D, ray: Ray): (r: Hit<Object3D>)
    ensures r.At? ==> InFront(r.dist) && !r.obj.shape.Mesh?
    ensures r.At? && !o.shape.Mesh? ==> r.obj == o
    ensures r.At? && o.shape.Mesh? ==> r.obj in o.shape.triangles && r.dist.Fin?
  {
    if o.shape.Mesh? then
      var hs := FlatAnswers(num, o.shape.triangles, ray);
      var r := NearestOf(hs);
      assert r.At? ==> exists i :: 0 <= i < |hs| && hs[i] == r;
      r
    else IntersectFlat(num, o, ray)
  }

  function Answers(num: Numerics, objects: seq<Object3D>, ray: Ray): (hs: seq<Hit<Object3D>>)
    ensures |hs| == |objects|
    ensures forall i :: 0 <= i < |objects| ==> hs[i] == Intersect(num, objects[i], ray)
  {
    seq(|objects|, i requires 0 <= i < |objects| => Intersect(num, objects[i], ray))
  }

  /** `ray.nearest_intersected_object(objects)`: `Miss` is `(None, np.inf)`.
      The object found is never a mesh, and it is in front of the origin at
      a finite distance. */
  function Nearest(num: Numerics, ray: Ray, objects: seq<Object3D>): (r: Hit<Object3D>)
    ensures r.At? ==> r.dist.Fin? && 0.0 < r.dist.v && !r.obj.shape.Mesh?
    ensures r.At? ==> exists i :: 0 <= i < |objects| && Intersect(num, objects[i], ray) == r
  {
    var hs := Answers(num, objects, ray);
    var r := NearestOf(hs);
    assert r.At? ==> exists i :: 0 <= i < |hs| && hs[i] == r;
    r
  }

  /** With no objects, nothing is hit. */
  lemma NearestOfNothing(num: Numerics, ray: Ray)
    ensures Nearest(num, ray, []).Miss?
  {
  }

  /** The object found is no farther than any other object's answer, and
      it is the first in list order at that distance. */
  lemma NearestIsClosestFirst(num: Numerics, ray: Ray, objects: seq<Object3D>)
    requires Nearest(num, ray, objects).At?
    ensures forall i :: 0 <= i < |objects| && Intersect(num, objects[i], ray).At? ==>
              LessEq(Nearest(num, ray, objects).dist, Intersect(num, objects[i], ray).dist)
    ensures exists i :: 0 <= i < |objects| && Intersect(num, objects[i], ray) == Nearest(num, ray, objects) &&
              forall j :: 0 <= j < i && Intersect(num, objects[j], ray).At? ==>
                Less(Nearest(num, ray, objects).dist, Intersect(num, objects[j], ray).dist)
  {
    var hs := Answers(num, objects, ray);
    NearestOfFirstWins(hs);
  }

  /** In a well-formed scene the object found is a plane, triangle or
      sphere of the scene, or a triangle of one of its meshes. */
  lemma NearestObjectOrigin(num: Numerics, ray: Ray, objects: seq<Object3D>)
    requires forall i :: 0 <= i < |objects| ==> WellFormed(objects[i])
    requires Nearest(num, ray, objects).At?
    ensures var o := Nearest(num, ray, objects).obj;
            o in objects || exists i :: 0 <= i < |objects| && objects[i].shape.Mesh? && o in objects[i].shape.triangles
    ensures Nearest(num, ray, objects).obj in objects ==> !Nearest(num, ray, objects).obj.shape.Mesh?
  {
  }

  /** In a well-formed scene the object found is never a mesh but one of its
      triangles. */
  lemma {:induction false} MeshAnswersWithTriangle(num: Numerics, o: Object3D, ray: Ray)
    requires o.shape.Mesh? && WellFormed(o)
    ensures Intersect(num, o, ray).At? ==> Intersect(num, o, ray).obj.shape.Triangle?
  {
    var r := Intersect(num, o, ray);
    if r.At? {
      var ts := o.shape.triangles;
      var i :| 0 <= i < |ts| && ts[i] == r.obj;
    }
  }

  /** The vertices (1, 0, 0), (0, 0, 0), (0, 1, 0), stated field by field. */
  predicate ExampleVertices(a: Vec3, b: Vec3, c: Vec3) {
    a.x == 1.0 && a.y == 0.0 && a.z == 0.0 &&
    b.x == 0.0 && b.y == 0.0 && b.z == 0.0 &&
    c.x == 0.0 && c.y == 1.0 && c.z == 0.0
  }

  /** The heuristic can flip the normal against the winding that the edge
      tests of `OnTriangle` measure: for the triangle (1, 0, 0), (0, 0, 0),
      (0, 1, 0) it picks the order a, c, b, and its normal is the opposite
      of the winding normal of a, b, c. */
  lemma HeuristicFlipsWinding(a: Vec3, b: Vec3, c: Vec3)
    requires ExampleVertices(a, b, c)
    ensures RawNormal(a, b, c) == Neg(WindingNormal(a, b, c))
  {
    ExampleOrder(a, b, c);
    WindingUnderPermutation(a, b, c);
  }

  /** The three edge tests of `OnTriangle` always add up to the stored
      normal's dot product with the winding normal `(b − a) × (c − a)`,
      wherever the point is. */
  lemma EdgeTestsSum(s: Shape, q: Vec3)
    requires s.Triangle?
    ensures Dot(Cross(Sub(s.b, s.a), Sub(q, s.a)), s.normal) +
            Dot(Cross(Sub(s.c, s.b), Sub(q, s.b)), s.normal) +
            Dot(Cross(Sub(s.a, s.c), Sub(q, s.c)), s.normal) ==
            Dot(WindingNormal(s.a, s.b, s.c), s.normal)
  {
    var e1 := Cross(Sub(s.b, s.a), Sub(q, s.a));
    var e2 := Cross(Sub(s.c, s.b), Sub(q, s.b));
    var e3 := Cross(Sub(s.a, s.c), Sub(q, s.c));
    EdgeCrossesSum(s.a, s.b, s.c, q);
    DotLinear(Add(e1, e2), e3, s.normal);
    DotLinear(e1, e2, s.normal);
  }

  /** A triangle whose stored normal points against its winding is never
      hit: the three edge tests cannot all be non-negative when their sum
      is negative. */
  lemma AgainstWindingNeverHit(num: Numerics, a: Vec3, b: Vec3, c: Vec3, n: Vec3, m: Material, ray: Ray)
    requires Dot(WindingNormal(a, b, c), n) < 0.0
    ensures Intersect(num, Object3D(Triangle(a, b, c, n), m), ray).Miss?
  {
    forall q: Vec3
      ensures !OnTriangle(Triangle(a, b, c, n), q)
    {
      EdgeTestsSum(Triangle(a, b, c, n), q);
    }
  }

  /** Hence the triangle of `HeuristicFlipsWinding` is never hit: against
      its flipped normal the three edge tests ask for `y <= 0`, `x <= 0`
      and `x + y >= 1`, which no point meets, so every ray misses it. */
  lemma FlippedTriangleIsNeverHit(num: Numerics, a: Vec3, b: Vec3, c: Vec3, m: Material, ray: Ray)
    requires ExampleVertices(a, b, c)
    ensures Intersect(num, MakeTriangle(num, a, b, c, m), ray).Miss?
  {
    FlippedNormalOpposesWinding(num, a, b, c);
    AgainstWindingNeverHit(num, a, b, c, HeuristicNormal(num, a, b, c), m, ray);
  }

  /** The example's stored normal points against its winding. */
  lemma FlippedNormalOpposesWinding(num: Numerics, a: Vec3, b: Vec3, c: Vec3)
    requires ExampleVertices(a, b, c)
    ensures Dot(WindingNormal(a, b, c), HeuristicNormal(num, a, b, c)) < 0.0
  {
    var k := FlippedNormal(num, a, b, c);
    ExampleWinding(a, b, c);
    OpposedToDownward(WindingNormal(a, b, c), HeuristicNormal(num, a, b, c), k);
  }

  /** The heuristic normal is a positive multiple of the reversed winding
      normal. */
  lemma FlippedNormal(num: Numerics, a: Vec3, b: Vec3, c: Vec3) returns (k: real)
    requires ExampleVertices(a, b, c)
    ensures 0.0 < k && HeuristicNormal(num, a, b, c) == Scale(k, Neg(WindingNormal(a, b, c)))
  {
    HeuristicFlipsWinding(a, b, c);
    k := NormalizeFactor(num, RawNormal(a, b, c));
  }

  lemma OpposedToDownward(w: Vec3, n: Vec3, k: real)
    requires 0.0 < k && w == Vec3(0.0, 0.0, -1.0) && n == Scale(k, Neg(w))
    ensures Dot(w, n) < 0.0
  {
  }

  /** The winding `a → b → c` of the example turns about `−z`. */
  lemma ExampleWinding(a: Vec3, b: Vec3, c: Vec3)
    requires ExampleVertices(a, b, c)
    ensures WindingNormal(a, b, c) == Vec3(0.0, 0.0, -1.0)
  {
    assert Sub(b, a) == Vec3(-1.0, 0.0, 0.0) && Sub(c, a) == Vec3(-1.0, 1.0, 0.0);
  }

  lemma ExampleOrder(a: Vec3, b: Vec3, c: Vec3)
    requires ExampleVertices(a, b, c)
    ensures Reorder(a, b, c) == (a, c, b)
  {
    ExampleFirstPick(a, b, c);
    ExampleSecondPick(a, b, c);
  }

  /** The largest x is a's; removing it leaves b, c. */
  lemma ExampleFirstPick(a: Vec3, b: Vec3, c: Vec3)
    requires ExampleVertices(a, b, c)
    ensures [a, b, c][FirstMax([a, b, c], 0)] == a
    ensures RemoveArray([a, b, c], a) == [b, c]
  {
    var ls := [a, b, c];
    assert FirstMax(ls, 0) == 0;
    assert FirstIndexOf(ls, a) == 0;
    assert ls[..0] + ls[1..] == [b, c];
  }

  /** Of b and c the larger y is c's; removing it leaves b. */
  lemma ExampleSecondPick(a: Vec3, b: Vec3, c: Vec3)
    requires ExampleVertices(a, b, c)
    ensures [b, c][FirstMax([b, c], 1)] == c
    ensures RemoveArray([b, c], c) == [b]
  {
    var ls := [b, c];
    assert FirstMax(ls, 1) == 1;
    assert FirstIndexOf(ls, c) == 1;
    assert ls[..1] + ls[2..] == [b];
  }
}
