/** The nearest-hit search shared by the scene and by meshes: a running
    minimum of squared distances from the ray origin, started at the `-1`
    sentinel, replaced only on a strictly smaller distance so the earliest
    object wins a tie. The per-object tests are parameters. */
module ClosestHit {
  import opened Vector3Math
  import opened Bounds
  import opened SceneTypes

  /** What a search needs to know about one ray: its origin, whether boxes
      are tested first, each object's box, the ray-versus-box test and the
      exact per-object test, which yields the hit record it writes. */
  datatype Probe<!T> = Probe(
    origin: Vector3,
    useAabb: bool,
    box: T -> AABB,
    hitsBox: AABB -> bool,
    intersect: T -> Option<Intersection>)

  /** The object gets past the box test (when boxes are on) and reports a hit. */
  predicate Hits<T>(p: Probe<T>, o: T) {
    (!p.useAabb || p.hitsBox(p.box(o))) && p.intersect(o).Some?
  }

  /** The hit record kept for a hitting object: its distance field holds the
      squared distance of the hit position from the ray origin, which is
      never negative and so never equals the sentinel. */
  function Recorded<T>(p: Probe<T>, o: T): (r: Intersection)
    requires Hits(p, o)
    ensures r.distance >= 0.0
    ensures r.distance == LengthSquared(Sub(r.position, p.origin))
    ensures r.position == p.intersect(o).value.position
  {
    var hit := p.intersect(o).value;
    hit.(distance := LengthSquared(Sub(hit.position, p.origin)))
  }

  /** Index `k` holds a nearest hit, and no earlier object is as near. */
  ghost predicate IsClosest<T>(p: Probe<T>, objs: seq<T>, k: int) {
    && 0 <= k < |objs| && Hits(p, objs[k])
    && (forall j :: 0 <= j < |objs| && Hits(p, objs[j]) ==>
          Recorded(p, objs[k]).distance <= Recorded(p, objs[j]).distance)
    && (forall j :: 0 <= j < k && Hits(p, objs[j]) ==>
          Recorded(p, objs[k]).distance < Recorded(p, objs[j]).distance)
  }

  /** The first nearest hit, defined from the back of the list: an object
      takes over from the best of those after it unless one of them is
      strictly nearer. */
  function Nearest<T>(p: Probe<T>, objs: seq<T>): Option<Intersection> {
    if |objs| == 0 then None
    else
      var rest := Nearest(p, objs[1..]);
      if !Hits(p, objs[0]) then rest
      else if rest.Some? && rest.value.distance < Recorded(p, objs[0]).distance then rest
      else Some(Recorded(p, objs[0]))
  }

  lemma ClosestUnique<T>(p: Probe<T>, objs: seq<T>, k1: int, k2: int)
    requires IsClosest(p, objs, k1) && IsClosest(p, objs, k2)
    ensures k1 == k2
  {
  }

  /** `Nearest` finds nothing iff no object hits, and otherwise the record of
      the first object at minimum squared distance. */
  lemma {:induction false} NearestIsFirstClosest<T>(p: Probe<T>, objs: seq<T>)
    ensures Nearest(p, objs).None? <==> forall j :: 0 <= j < |objs| ==> !Hits(p, objs[j])
    ensures Nearest(p, objs).Some? ==>
              exists k :: IsClosest(p, objs, k) && Nearest(p, objs).value == Recorded(p, objs[k])
  {
    if |objs| > 0 {
      var tail := objs[1..];
      NearestIsFirstClosest(p, tail);
      var rest := Nearest(p, tail);
      assert forall j :: 1 <= j < |objs| ==> objs[j] == tail[j - 1];
      if rest.Some? {
        var k :| IsClosest(p, tail, k) && rest.value == Recorded(p, tail[k]);
        if !Hits(p, objs[0]) || rest.value.distance < Recorded(p, objs[0]).distance {
          assert IsClosest(p, objs, k + 1);
        } else {
          assert IsClosest(p, objs, 0);
        }
      } else if Hits(p, objs[0]) {
        assert IsClosest(p, objs, 0);
      }
    }
  }

  /** Two searches over lists holding the same hitting objects find a hit
      together, at the same squared distance (ties may pick different
      objects when the lists are in different orders). */
  lemma SameHitsSameDistance<T>(p: Probe<T>, objs: seq<T>, cands: seq<T>)
    requires forall i :: 0 <= i < |objs| && Hits(p, objs[i]) ==> objs[i] in cands
    requires forall i :: 0 <= i < |cands| && Hits(p, cands[i]) ==> cands[i] in objs
    ensures Nearest(p, objs).Some? <==> Nearest(p, cands).Some?
    ensures Nearest(p, objs).Some? ==> Nearest(p, objs).value.distance == Nearest(p, cands).value.distance
  {
    NearestIsFirstClosest(p, objs);
    NearestIsFirstClosest(p, cands);
    if Nearest(p, objs).Some? {
      var k :| IsClosest(p, objs, k) && Nearest(p, objs).value == Recorded(p, objs[k]);
      var c :| 0 <= c < |cands| && cands[c] == objs[k];
      if Nearest(p, cands).Some? {
        var m :| IsClosest(p, cands, m) && Nearest(p, cands).value == Recorded(p, cands[m]);
        var n :| 0 <= n < |objs| && objs[n] == cands[m];
        assert Recorded(p, objs[k]).distance <= Recorded(p, objs[n]).distance;
        assert Recorded(p, cands[m]).distance <= Recorded(p, cands[c]).distance;
      }
    }
  }

  /** The running-minimum loop. Returns whether the minimum moved off the
      sentinel, and the record of the nearest hit (the default record when
      there is none). */
  method Scan<T>(p: Probe<T>, objs: seq<T>) returns (found: bool, closest: Intersection)
    ensures found <==> Nearest(p, objs).Some?
    ensures found ==> closest == Nearest(p, objs).value
    ensures !found ==> closest == NoIntersection
  {
    var closestDistanceSquared := -1.0;
    closest := NoIntersection;
    ghost var best := 0;
    for i := 0 to |objs|
      invariant closestDistanceSquared < 0.0 ==>
                  && closestDistanceSquared == -1.0 && closest == NoIntersection
                  && forall j :: 0 <= j < i ==> !Hits(p, objs[j])
      invariant closestDistanceSquared >= 0.0 ==>
                  && IsClosest(p, objs[..i], best) && closest == Recorded(p, objs[best])
                  && closestDistanceSquared == closest.distance
    {
      var o := objs[i];
      if p.useAabb && !p.hitsBox(p.box(o)) {
        continue;
      }
      var hit := p.intersect(o);
      if hit.Some? {
        var distance := LengthSquared(Sub(hit.value.position, p.origin));
        if closestDistanceSquared < 0.0 || distance < closestDistanceSquared {
          closestDistanceSquared := distance;
          closest := hit.value.(distance := distance);
          best := i;
        }
      }
    }
    found := closestDistanceSquared > -1.0;
    NearestIsFirstClosest(p, objs);
    assert objs[..|objs|] == objs;
    if found {
      ghost var k :| IsClosest(p, objs, k) && Nearest(p, objs).value == Recorded(p, objs[k]);
      ClosestUnique(p, objs, k, best);
    }
  }
}
