/** Rays and the nearest-hit selection of `Ray.nearest_intersected_object`.

    The selection is stated over the sequence of answers the objects give
    (`current_obj.intersect(self)` for each object in turn), so it does not
    depend on what kind of object is being intersected. */
module Rays {
  import opened Basics
  import opened Vectors

  /** A ray; `Ray.__init__` normalises the direction (see `MakeRay`). */
  datatype Ray = Ray(origin: Vec3, direction: Vec3)

  /** `Ray(origin, direction)`. */
  function MakeRay(num: Numerics, origin: Vec3, direction: Vec3): Ray {
    Ray(origin, Normalize(num, direction))
  }

  /** With an exact square root and a direction of non-zero length, the
      stored direction is a unit vector pointing the same way. */
  lemma MakeRayUnitDirection(num: Numerics, origin: Vec3, direction: Vec3)
    requires ExactSqrt(num)
    requires Norm(num, direction) != 0.0
    ensures MakeRay(num, origin, direction).origin == origin
    ensures Dot(MakeRay(num, origin, direction).direction, MakeRay(num, origin, direction).direction) == 1.0
    ensures Cross(MakeRay(num, origin, direction).direction, direction) == Zero
    ensures 0.0 <= Dot(MakeRay(num, origin, direction).direction, direction)
  {
    NormalizeIsUnit(num, direction);
    NormalizeSameDirection(num, direction);
  }

  /** `origin + t·direction`, without the guard. */
  function PointAt(ray: Ray, t: real): Vec3 {
    Add(ray.origin, Scale(t, ray.direction))
  }

  /** `Ray.get_new_point(t)`: a point only in front of the origin. */
  function GetNewPoint(ray: Ray, t: real): (p: Option<Vec3>)
    ensures p.Some? <==> 0.0 < t
    ensures p.Some? ==> Sub(p.value, ray.origin) == Scale(t, ray.direction)
  {
    if t > 0.0 then Some(PointAt(ray, t)) else None
  }

  /** What `intersect` returns: `(None, None)` or `(object, t)`, where `t`
      can be `+∞` (a plane met by a parallel ray, see `Objects`). */
  datatype Hit<O> = Miss | At(obj: O, dist: Ext)

  /** The distance `nearest_intersected_object` keeps for a partial answer:
      `np.inf` while nothing has been found. */
  function BestDist<O>(h: Hit<O>): Ext {
    if h.At? then h.dist else Inf
  }

  /** One iteration of the loop: replace the current best only on a strictly
      smaller distance. */
  function Step<O>(best: Hit<O>, h: Hit<O>): Hit<O> {
    if h.At? && Less(h.dist, BestDist(best)) then h else best
  }

  /** An answer that the loop can select: a hit at a finite distance. */
  predicate IsFinite<O>(h: Hit<O>) {
    h.At? && h.dist.Fin?
  }

  /** `nearest_intersected_object` over the answers `hits`, in list order.
      `Miss` stands for `(None, np.inf)`. */
  function NearestOf<O>(hits: seq<Hit<O>>): (r: Hit<O>)
    ensures r.Miss? <==> forall i :: 0 <= i < |hits| ==> !IsFinite(hits[i])
    ensures r.At? ==> r.dist.Fin? && r in hits
    ensures r.At? ==> forall i :: 0 <= i < |hits| && hits[i].At? ==> LessEq(r.dist, hits[i].dist)
  {
    if |hits| == 0 then Miss
    else
      var prev := NearestOf(hits[..|hits| - 1]);
      assert forall i :: 0 <= i < |hits| - 1 ==> hits[..|hits| - 1][i] == hits[i];
      Step(prev, hits[|hits| - 1])
  }

  /** Ties go to the first object in list order: the answer is the first
      answer at its distance, and every earlier hit is strictly farther. */
  lemma {:induction false} NearestOfFirstWins<O>(hits: seq<Hit<O>>)
    requires NearestOf(hits).At?
    ensures exists i :: 0 <= i < |hits| && hits[i] == NearestOf(hits) &&
              forall j :: 0 <= j < i && hits[j].At? ==> Less(NearestOf(hits).dist, hits[j].dist)
  {
    var n := |hits|;
    var front := hits[..n - 1];
    assert forall i :: 0 <= i < n - 1 ==> front[i] == hits[i];
    var prev := NearestOf(front);
    var r := NearestOf(hits);
    if r == prev && !(hits[n - 1].At? && Less(hits[n - 1].dist, BestDist(prev))) {
      NearestOfFirstWins(front);
      var i :| 0 <= i < |front| && front[i] == prev &&
               forall j :: 0 <= j < i && front[j].At? ==> Less(prev.dist, front[j].dist);
      assert hits[i] == r;
    } else {
      assert r == hits[n - 1];
      forall j | 0 <= j < n - 1 && hits[j].At?
        ensures Less(r.dist, hits[j].dist)
      {
        assert front[j].At?;
        assert r.dist.Fin?;
        if prev.At? {
          assert LessEq(prev.dist, front[j].dist);
          LessIsStrictTotal(r.dist, prev.dist, hits[j].dist);
        } else {
          assert !IsFinite(front[j]);
        }
      }
    }
  }
}
