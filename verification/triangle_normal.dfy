/** The vertex-reordering heuristic of `Triangle.compute_normal`: the vertex
    with the largest x comes first, the remaining vertex with the largest y
    second, the last one third, and the normal is the normalised cross
    product of the two edges leaving the first vertex. Python's `max`
    returns the first maximal element and `remove_array` removes the first
    element equal to its argument; both are modelled as such. */
module TriangleNormal {
  import opened Vectors

  /** `t[axis]` for the two keys the heuristic uses. */
  function Coord(v: Vec3, axis: nat): real
    requires axis < 2
  {
    if axis == 0 then v.x else v.y
  }

  /** Index of `max(ls, key=lambda t: t[axis])`: the first element whose
      key is maximal. */
  function FirstMax(ls: seq<Vec3>, axis: nat): (k: nat)
    requires 0 < |ls| && axis < 2
    ensures k < |ls|
    ensures forall i :: 0 <= i < |ls| ==> Coord(ls[i], axis) <= Coord(ls[k], axis)
    ensures forall i :: 0 <= i < k ==> Coord(ls[i], axis) < Coord(ls[k], axis)
  {
    if |ls| == 1 then 0
    else
      var front := ls[..|ls| - 1];
      var j := FirstMax(front, axis);
      assert forall i :: 0 <= i < |front| ==> front[i] == ls[i];
      if Coord(ls[|ls| - 1], axis) > Coord(ls[j], axis) then |ls| - 1 else j
  }

  /** Index of the first element equal to `arr`, if any (the `while` loop of
      `remove_array`). */
  function FirstIndexOf(ls: seq<Vec3>, arr: Vec3): (i: nat)
    ensures i <= |ls|
    ensures i < |ls| ==> ls[i] == arr
    ensures forall j :: 0 <= j < i ==> ls[j] != arr
  {
    if |ls| == 0 then 0
    else if ls[0] == arr then 0
    else 1 + FirstIndexOf(ls[1..], arr)
  }

  /** `remove_array(ls, arr)`: drop the first element equal to `arr`; leave
      the list alone when there is none. */
  function RemoveArray(ls: seq<Vec3>, arr: Vec3): (r: seq<Vec3>)
    ensures arr in ls ==> |r| == |ls| - 1 && multiset(r) == multiset(ls) - multiset{arr}
    ensures arr in ls ==> exists i :: 0 <= i < |ls| && ls[i] == arr && arr !in ls[..i] && r == ls[..i] + ls[i + 1..]
    ensures arr !in ls ==> r == ls
  {
    var i := FirstIndexOf(ls, arr);
    if i == |ls| then ls
    else
      assert ls == ls[..i] + [ls[i]] + ls[i + 1..];
      ls[..i] + ls[i + 1..]
  }

  /** The three vertices in the order the heuristic puts them: lines
      152-157 of `compute_normal`. */
  function Reorder(a: Vec3, b: Vec3, c: Vec3): (r: (Vec3, Vec3, Vec3))
    ensures a.x <= r.0.x && b.x <= r.0.x && c.x <= r.0.x
  {
    var r := ReorderList([a, b, c]);
    assert [a, b, c][0] == a && [a, b, c][1] == b && [a, b, c][2] == c;
    r
  }

  function ReorderList(ls: seq<Vec3>): (r: (Vec3, Vec3, Vec3))
    requires |ls| == 3
    ensures forall i :: 0 <= i < 3 ==> ls[i].x <= r.0.x
  {
    var first := ls[FirstMax(ls, 0)];
    var ls1 := RemoveArray(ls, first);
    var second := ls1[FirstMax(ls1, 1)];
    var ls2 := RemoveArray(ls1, second);
    (first, second, ls2[0])
  }

  /** The reordering is a permutation of the vertices, and the second vertex
      has the larger y of the last two. */
  lemma {:induction false} ReorderIsPermutation(a: Vec3, b: Vec3, c: Vec3)
    ensures multiset{Reorder(a, b, c).0, Reorder(a, b, c).1, Reorder(a, b, c).2} == multiset{a, b, c}
    ensures Reorder(a, b, c).2.y <= Reorder(a, b, c).1.y
  {
    ReorderListIsPermutation([a, b, c]);
    ThreeMultiset(a, b, c);
  }

  lemma {:induction false} ReorderListIsPermutation(ls: seq<Vec3>)
    requires |ls| == 3
    ensures multiset{ReorderList(ls).0, ReorderList(ls).1, ReorderList(ls).2} == multiset(ls)
    ensures ReorderList(ls).2.y <= ReorderList(ls).1.y
  {
    var first := ls[FirstMax(ls, 0)];
    var ls1 := RemoveArray(ls, first);
    var second := ls1[FirstMax(ls1, 1)];
    var ls2 := RemoveArray(ls1, second);
    RemoveThenAdd(ls, first);
    RemoveThenAdd(ls1, second);
    Combine(multiset(ls), multiset(ls1), ls2, first, second);
    SecondHasLargerY(ls1, second, ls2);
  }

  lemma Combine(m: multiset<Vec3>, m1: multiset<Vec3>, ls2: seq<Vec3>, first: Vec3, second: Vec3)
    requires m == m1 + multiset{first}
    requires m1 == multiset(ls2) + multiset{second}
    requires |ls2| == 1
    ensures m == multiset{first, second, ls2[0]}
  {
    assert ls2 == [ls2[0]];
  }

  lemma SecondHasLargerY(ls1: seq<Vec3>, second: Vec3, ls2: seq<Vec3>)
    requires |ls1| == 2 && |ls2| == 1
    requires second == ls1[FirstMax(ls1, 1)]
    requires multiset(ls1) == multiset(ls2) + multiset{second}
    ensures ls2[0].y <= second.y
  {
    assert ls2[0] in multiset(ls2);
    assert ls2[0] in multiset(ls1);
  }

  lemma ThreeMultiset(a: Vec3, b: Vec3, c: Vec3)
    ensures multiset([a, b, c]) == multiset{a, b, c}
  {
  }

  lemma RemoveThenAdd(ls: seq<Vec3>, x: Vec3)
    requires x in ls
    ensures multiset(ls) == multiset(RemoveArray(ls, x)) + multiset{x}
  {
  }

  /** The unnormalised normal of the reordered triangle. */
  function RawNormal(a: Vec3, b: Vec3, c: Vec3): Vec3 {
    var r := Reorder(a, b, c);
    Cross(Sub(r.1, r.0), Sub(r.2, r.0))
  }

  /** `Triangle.compute_normal` on its first call (the constructor). */
  function HeuristicNormal(num: Numerics, a: Vec3, b: Vec3, c: Vec3): Vec3 {
    Normalize(num, RawNormal(a, b, c))
  }

  /** The cross product of the edges leaving `a`, in the given order. */
  function WindingNormal(a: Vec3, b: Vec3, c: Vec3): Vec3 {
    Cross(Sub(b, a), Sub(c, a))
  }

  /** Rotating the vertices keeps the winding normal; swapping two flips it. */
  lemma WindingUnderPermutation(a: Vec3, b: Vec3, c: Vec3)
    ensures WindingNormal(b, c, a) == WindingNormal(a, b, c)
    ensures WindingNormal(c, a, b) == WindingNormal(a, b, c)
    ensures WindingNormal(b, a, c) == Neg(WindingNormal(a, b, c))
    ensures WindingNormal(a, c, b) == Neg(WindingNormal(a, b, c))
    ensures WindingNormal(c, b, a) == Neg(WindingNormal(a, b, c))
  {
    WindingRotates(a, b, c);
    WindingRotates(b, c, a);
    WindingSwapsFirstTwo(a, b, c);
    WindingRotates(c, b, a);
    WindingRotates(b, a, c);
  }

  lemma WindingRotates(a: Vec3, b: Vec3, c: Vec3)
    ensures WindingNormal(b, c, a) == WindingNormal(a, b, c)
  {
    Det2Rotates(a.y, a.z, b.y, b.z, c.y, c.z);
    Det2Rotates(a.z, a.x, b.z, b.x, c.z, c.x);
    Det2Rotates(a.x, a.y, b.x, b.y, c.x, c.y);
  }

  lemma WindingSwapsFirstTwo(a: Vec3, b: Vec3, c: Vec3)
    ensures WindingNormal(b, a, c) == Neg(WindingNormal(a, b, c))
  {
    Det2Swaps(a.y, a.z, b.y, b.z, c.y, c.z);
    Det2Swaps(a.z, a.x, b.z, b.x, c.z, c.x);
    Det2Swaps(a.x, a.y, b.x, b.y, c.x, c.y);
  }

  /** One component of the winding normal, in the plane of two axes. */
  function Det2(p1: real, p2: real, q1: real, q2: real, r1: real, r2: real): real {
    (q1 - p1) * (r2 - p2) - (q2 - p2) * (r1 - p1)
  }

  lemma Det2Rotates(p1: real, p2: real, q1: real, q2: real, r1: real, r2: real)
    ensures Det2(q1, q2, r1, r2, p1, p2) == Det2(p1, p2, q1, q2, r1, r2)
  {
  }

  lemma Det2Swaps(p1: real, p2: real, q1: real, q2: real, r1: real, r2: real)
    ensures Det2(q1, q2, p1, p2, r1, r2) == -Det2(p1, p2, q1, q2, r1, r2)
  {
  }

  /** Whatever order the heuristic picks, its normal is the winding normal of
      the vertices as given, up to sign: the reordering can only flip the
      normal, never tilt it. */
  lemma {:induction false} RawNormalIsWindingUpToSign(a: Vec3, b: Vec3, c: Vec3)
    ensures RawNormal(a, b, c) == WindingNormal(a, b, c) ||
            RawNormal(a, b, c) == Neg(WindingNormal(a, b, c))
  {
    var r := Reorder(a, b, c);
    ReorderIsPermutation(a, b, c);
    WindingUnderPermutation(a, b, c);
    PermutationOfThree(r.0, r.1, r.2, a, b, c);
  }

  /** A multiset equality between two triples means the triples are one of
      the six permutations of each other. */
  lemma PermutationOfThree(p: Vec3, q: Vec3, s: Vec3, a: Vec3, b: Vec3, c: Vec3)
    requires multiset{p, q, s} == multiset{a, b, c}
    ensures (p, q, s) in {(a, b, c), (b, c, a), (c, a, b), (b, a, c), (a, c, b), (c, b, a)}
  {
    assert p in multiset{a, b, c};
    if p == a {
      assert multiset{q, s} == multiset{b, c};
      assert q in multiset{b, c};
    } else if p == b {
      assert multiset{q, s} == multiset{a, c};
      assert q in multiset{a, c};
    } else {
      assert multiset{q, s} == multiset{a, b};
      assert q in multiset{a, b};
    }
  }

  /** The heuristic normal is orthogonal to every edge of the triangle. */
  lemma RawNormalOrthogonalToEdges(a: Vec3, b: Vec3, c: Vec3)
    ensures Dot(RawNormal(a, b, c), Sub(b, a)) == 0.0
    ensures Dot(RawNormal(a, b, c), Sub(c, a)) == 0.0
    ensures Dot(RawNormal(a, b, c), Sub(c, b)) == 0.0
  {
    RawNormalIsWindingUpToSign(a, b, c);
    WindingOrthogonal(a, b, c);
    var w := WindingNormal(a, b, c);
    if RawNormal(a, b, c) != w {
      DotNeg(w, Sub(b, a));
      DotNeg(w, Sub(c, a));
      DotNeg(w, Sub(c, b));
    }
  }

  lemma DotNeg(w: Vec3, e: Vec3)
    ensures Dot(Neg(w), e) == -Dot(w, e)
  {
  }

  lemma WindingOrthogonal(a: Vec3, b: Vec3, c: Vec3)
    ensures Dot(WindingNormal(a, b, c), Sub(b, a)) == 0.0
    ensures Dot(WindingNormal(a, b, c), Sub(c, a)) == 0.0
    ensures Dot(WindingNormal(a, b, c), Sub(c, b)) == 0.0
  {
    var u, v := Sub(b, a), Sub(c, a);
    assert Dot(Cross(u, v), u) == 0.0;
    assert Dot(Cross(u, v), v) == 0.0;
    assert Sub(c, b) == Sub(v, u);
  }
}
