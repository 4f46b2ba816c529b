/** Axis-aligned bounding boxes as a pair of corners. The box class itself
    (its slab test against a ray in particular) is not part of this model:
    `Subsume` is taken to be the componentwise min/max, and the ray test is
    a parameter wherever it is used. */
module Bounds {
  import opened Vector3Math

  datatype AABB = AABB(min: Vector3, max: Vector3)

  /** The box a default-constructed AABB holds: both corners at the origin. */
  const DefaultBox := AABB(Zero, Zero)

  function Min(a: real, b: real): real { if a <= b then a else b }
  function Max(a: real, b: real): real { if a <= b then b else a }

  /** The coordinate of `v` on axis 0 (X), 1 (Y) or 2 (Z). */
  function Coord(v: Vector3, axis: nat): real
    requires axis < 3
  {
    if axis == 0 then v.x else if axis == 1 then v.y else v.z
  }

  /** Grows box `a` to the smallest box holding both `a` and `b`. */
  function Subsume(a: AABB, b: AABB): AABB {
    AABB(Vector3(Min(a.min.x, b.min.x), Min(a.min.y, b.min.y), Min(a.min.z, b.min.z)),
         Vector3(Max(a.max.x, b.max.x), Max(a.max.y, b.max.y), Max(a.max.z, b.max.z)))
  }

  /** `outer` holds `inner`: its lower corner is below and its upper corner
      above, on every axis. */
  predicate Contains(outer: AABB, inner: AABB) {
    && outer.min.x <= inner.min.x && outer.min.y <= inner.min.y && outer.min.z <= inner.min.z
    && inner.max.x <= outer.max.x && inner.max.y <= outer.max.y && inner.max.z <= outer.max.z
  }

  /** Extent of a box along one axis. */
  function Extent(b: AABB, axis: nat): real
    requires axis < 3
  {
    Coord(b.max, axis) - Coord(b.min, axis)
  }

  /** The centre of a box: half the sum of its corners. */
  function Center(b: AABB): Vector3 {
    Scale(Add(b.min, b.max), 0.5)
  }

  /** The first box subsumed with every later one, in order. */
  function SubsumeAll(boxes: seq<AABB>): AABB
    requires |boxes| > 0
  {
    if |boxes| == 1 then boxes[0]
    else Subsume(SubsumeAll(boxes[..|boxes| - 1]), boxes[|boxes| - 1])
  }

  // ---------------------------------------------------------------------------
  // Containment is a partial order and Subsume is its least upper bound

  lemma ContainsReflexive(a: AABB)
    ensures Contains(a, a)
  {
  }

  lemma ContainsTransitive(a: AABB, b: AABB, c: AABB)
    requires Contains(a, b) && Contains(b, c)
    ensures Contains(a, c)
  {
  }

  lemma ContainsAntisymmetric(a: AABB, b: AABB)
    requires Contains(a, b) && Contains(b, a)
    ensures a == b
  {
  }

  /** Subsume is an upper bound of both operands, and the least one. */
  lemma SubsumeIsLeastUpperBound(a: AABB, b: AABB, c: AABB)
    ensures Contains(Subsume(a, b), a) && Contains(Subsume(a, b), b)
    ensures Contains(c, a) && Contains(c, b) ==> Contains(c, Subsume(a, b))
  {
  }

  /** Subsume is commutative and associative, so the order in which a set of
      boxes is folded together does not change the result. */
  lemma SubsumeCommutativeAssociative(a: AABB, b: AABB, c: AABB)
    ensures Subsume(a, b) == Subsume(b, a)
    ensures Subsume(Subsume(a, b), c) == Subsume(a, Subsume(b, c))
  {
  }

  /** The fold holds every box it was given. */
  lemma {:induction false} SubsumeAllContainsEach(boxes: seq<AABB>, i: nat)
    requires i < |boxes|
    ensures Contains(SubsumeAll(boxes), boxes[i])
  {
    if |boxes| == 1 {
      ContainsReflexive(boxes[0]);
    } else {
      var init := boxes[..|boxes| - 1];
      var last := boxes[|boxes| - 1];
      SubsumeIsLeastUpperBound(SubsumeAll(init), last, last);
      if i < |boxes| - 1 {
        SubsumeAllContainsEach(init, i);
        assert init[i] == boxes[i];
        ContainsTransitive(SubsumeAll(boxes), SubsumeAll(init), boxes[i]);
      }
    }
  }

  /** Any box holding every given box holds their fold. */
  lemma {:induction false} SubsumeAllIsLeast(boxes: seq<AABB>, c: AABB)
    requires |boxes| > 0
    requires forall i :: 0 <= i < |boxes| ==> Contains(c, boxes[i])
    ensures Contains(c, SubsumeAll(boxes))
  {
    if |boxes| > 1 {
      var init := boxes[..|boxes| - 1];
      assert forall i :: 0 <= i < |init| ==> init[i] == boxes[i];
      SubsumeAllIsLeast(init, c);
      SubsumeIsLeastUpperBound(SubsumeAll(init), boxes[|boxes| - 1], c);
    }
  }

  /** Folding the same boxes in any order yields the same box. */
  lemma SubsumeAllOrderIndependent(boxes: seq<AABB>, others: seq<AABB>)
    requires |boxes| > 0
    requires multiset(boxes) == multiset(others)
    ensures |others| > 0
    ensures SubsumeAll(boxes) == SubsumeAll(others)
  {
    assert |others| == |multiset(others)| == |multiset(boxes)| == |boxes|;
    forall i | 0 <= i < |others|
      ensures Contains(SubsumeAll(boxes), others[i])
    {
      assert others[i] in multiset(boxes);
      var j :| 0 <= j < |boxes| && boxes[j] == others[i];
      SubsumeAllContainsEach(boxes, j);
    }
    forall i | 0 <= i < |boxes|
      ensures Contains(SubsumeAll(others), boxes[i])
    {
      assert boxes[i] in multiset(others);
      var j :| 0 <= j < |others| && others[j] == boxes[i];
      SubsumeAllContainsEach(others, j);
    }
    SubsumeAllIsLeast(others, SubsumeAll(boxes));
    SubsumeAllIsLeast(boxes, SubsumeAll(others));
    ContainsAntisymmetric(SubsumeAll(boxes), SubsumeAll(others));
  }
}
