/** The scene: its object and light lists, the BSP over its objects, the
    nearest-hit query and the recursive ray caster. The `USE_AABB` and
    `USE_BSPTREE` build switches are fixed per scene as `useAabb` and
    `useBsp`. Scene objects are values of any type `T`; what the scene asks
    of them (apply the transform, recompute the box, read the box, test a
    ray) and material shading are parameters. */
module SceneModel {
  import opened Vector3Math
  import opened Bounds
  import opened SceneTypes
  import opened BSP
  import opened ClosestHit

  /** The per-object steps of `prepare`. */
  datatype ObjectOps<!T> = ObjectOps(
    applyTransform: T -> T,
    calculateBoundingBox: T -> T,
    box: T -> AABB)

  /** Everything a ray cast consults outside the scene: the object boxes,
      the ray-versus-box test, the exact object test (with front culling),
      material shading, a square root, and the offset along a reflected ray. */
  datatype Optics<!T> = Optics(
    box: T -> AABB,
    hitsBox: (Ray, AABB) -> bool,
    intersect: (T, Ray) -> Option<Intersection>,
    render: (Material, Ray, Ray, Intersection) -> Color,
    sqrt: real -> real,
    compareErrorConstant: real)

  function BoxTest<T>(optics: Optics<T>, r: Ray): AABB -> bool {
    b => optics.hitsBox(r, b)
  }

  function ProbeFor<T>(useAabb: bool, optics: Optics<T>, r: Ray): Probe<T> {
    Probe(r.origin, useAabb, optics.box, BoxTest(optics, r), o => optics.intersect(o, r))
  }

  /** The colour a hit contributes before any reflection: its material's
      shading, or black for a null material. */
  function Shade<T>(optics: Optics<T>, r: Ray, camera: Ray, hit: Intersection): Color {
    match hit.mat
    case None => Black
    case Some(m) => AddColor(Black, optics.render(m, r, camera, hit))
  }

  /** The ray cast from the hit point along the mirror direction, nudged off
      the surface by the comparison epsilon. */
  function ReflectedRay(r: Ray, hit: Intersection, epsilon: real): Ray {
    var reflectDir := Reflect(r.direction, hit.normal);
    Ray(Add(hit.position, Scale(reflectDir, epsilon)), reflectDir)
  }

  class Scene<T, L> {
    var objects: seq<T>
    var lights: seq<L>
    const bspTree: BSPTree<T>
    const useAabb: bool
    const useBsp: bool

    constructor(useAabb: bool, useBsp: bool)
      ensures objects == [] && lights == []
      ensures this.useAabb == useAabb && this.useBsp == useBsp
      ensures fresh(bspTree) && bspTree.root == Empty
    {
      objects := [];
      lights := [];
      bspTree := new BSPTree();
      this.useAabb := useAabb;
      this.useBsp := useBsp;
    }

    method Add(obj: T)
      modifies this
      ensures objects == old(objects) + [obj]
      ensures lights == old(lights)
    {
      objects := objects + [obj];
    }

    method AddLight(light: L)
      modifies this
      ensures lights == old(lights) + [light]
      ensures objects == old(objects)
    {
      lights := lights + [light];
    }

    /** One object after the per-object steps of `prepare`. */
    function Prepared(ops: ObjectOps<T>, o: T): T {
      var moved := ops.applyTransform(o);
      if useAabb then ops.calculateBoundingBox(moved) else moved
    }

    function PreparedAll(ops: ObjectOps<T>, objs: seq<T>): (r: seq<T>)
      ensures |r| == |objs|
      ensures forall i :: 0 <= i < |objs| ==> r[i] == Prepared(ops, objs[i])
    {
      seq(|objs|, i requires 0 <= i < |objs| => Prepared(ops, objs[i]))
    }

    /** Transforms (and re-boxes) every object in list order, then builds the
        BSP with its default parameters, which reorders the list. */
    method Prepare(ops: ObjectOps<T>)
      modifies this, bspTree
      ensures var ready := PreparedAll(ops, old(objects));
              && (useBsp ==> objects == ReorderedByBuild(ready, 0, DefaultMaxDepth, DefaultMinObjects, ops.box))
              && (useBsp ==> bspTree.root == BuildNode(ready, 0, DefaultMaxDepth, DefaultMinObjects, ops.box))
              && (!useBsp ==> objects == ready && bspTree.root == old(bspTree.root))
              && multiset(objects) == multiset(ready)
      ensures lights == old(lights)
    {
      ghost var initial := objects;
      var i := 0;
      while i < |objects|
        invariant |objects| == |initial| && 0 <= i <= |objects|
        invariant forall k :: 0 <= k < i ==> objects[k] == Prepared(ops, initial[k])
        invariant forall k :: i <= k < |objects| ==> objects[k] == initial[k]
        invariant lights == old(lights) && bspTree.root == old(bspTree.root)
      {
        objects := objects[i := Prepared(ops, objects[i])];
        i := i + 1;
      }
      assert objects == PreparedAll(ops, initial);
      if useBsp {
        objects := bspTree.Build(objects, DefaultMaxDepth, DefaultMinObjects, ops.box);
      }
    }

    /** The objects a ray query considers: the BSP candidates, or every object. */
    function Scope(optics: Optics<T>, r: Ray): seq<T>
      reads this, bspTree
    {
      if useBsp then Candidates(bspTree.root, BoxTest(optics, r)) else objects
    }

    /** The nearest hit along `r`, as the scene resolves it. */
    function ClosestOf(optics: Optics<T>, r: Ray): Option<Intersection>
      reads this, bspTree
    {
      Nearest(ProbeFor(useAabb, optics, r), Scope(optics, r))
    }

    method ClosestIntersection(optics: Optics<T>, r: Ray) returns (found: bool, closest: Intersection)
      ensures found <==> ClosestOf(optics, r).Some?
      ensures found ==> closest == ClosestOf(optics, r).value
      ensures !found ==> closest == NoIntersection
      ensures useBsp && Candidates(bspTree.root, BoxTest(optics, r)) == [] ==> !found
    {
      var probe := ProbeFor(useAabb, optics, r);
      if useBsp {
        var any, candidates := bspTree.Intersects(BoxTest(optics, r));
        if !any {
          return false, NoIntersection;
        }
        found, closest := Scan(probe, candidates);
      } else {
        found, closest := Scan(probe, objects);
      }
    }

    /** The colour seen along `r`: black without a hit or without a material;
        otherwise the material's shading plus, while the cast count is below
        its limit and the material reflects, the reflected ray's colour scaled
        by the reflection coefficient. */
    function Raycast(optics: Optics<T>, r: Ray, camera: Ray, castCount: int, maxCastCount: int): (c: Color)
      reads this, bspTree
      requires IsSquareRoot(optics.sqrt)
      ensures ClosestOf(optics, r).None? ==> c == Black
      ensures ClosestOf(optics, r).Some? && ClosestOf(optics, r).value.mat.None? ==> c == Black
      decreases if castCount < maxCastCount then maxCastCount - castCount else 0
    {
      match ClosestOf(optics, r)
      case None => Black
      case Some(found) =>
        var hit := found.(view := Normalize(Sub(camera.origin, found.position), optics.sqrt));
        match hit.mat
        case None => Black
        case Some(m) =>
          var pixel := Shade(optics, r, camera, hit);
          if castCount < maxCastCount && m.reflection > 0.0 then
            var bounce := Raycast(optics, ReflectedRay(r, hit, optics.compareErrorConstant), camera, castCount + 1, maxCastCount);
            AddColor(pixel, ScaleColor(bounce, m.reflection))
          else pixel
    }

    /** How many reflected rays a cast spawns, one after another: at most the
        number of casts left before the limit. */
    ghost function Bounces(optics: Optics<T>, r: Ray, camera: Ray, castCount: int, maxCastCount: int): (n: nat)
      reads this, bspTree
      requires IsSquareRoot(optics.sqrt)
      ensures n <= if castCount < maxCastCount then maxCastCount - castCount else 0
      decreases if castCount < maxCastCount then maxCastCount - castCount else 0
    {
      match ClosestOf(optics, r)
      case None => 0
      case Some(found) =>
        var hit := found.(view := Normalize(Sub(camera.origin, found.position), optics.sqrt));
        match hit.mat
        case None => 0
        case Some(m) =>
          if castCount < maxCastCount && m.reflection > 0.0 then
            1 + Bounces(optics, ReflectedRay(r, hit, optics.compareErrorConstant), camera, castCount + 1, maxCastCount)
          else 0
    }

    /** Only the number of casts left matters: shifting the count and the
        limit together gives the same colour. */
    lemma {:induction false} RaycastDependsOnCastsLeft(optics: Optics<T>, r: Ray, camera: Ray, castCount: int, maxCastCount: int, shift: int)
      requires IsSquareRoot(optics.sqrt)
      ensures Raycast(optics, r, camera, castCount, maxCastCount)
           == Raycast(optics, r, camera, castCount + shift, maxCastCount + shift)
      decreases if castCount < maxCastCount then maxCastCount - castCount else 0
    {
      match ClosestOf(optics, r)
      case None =>
      case Some(found) =>
        var hit := found.(view := Normalize(Sub(camera.origin, found.position), optics.sqrt));
        if hit.mat.Some? && castCount < maxCastCount && hit.mat.value.reflection > 0.0 {
          RaycastDependsOnCastsLeft(optics, ReflectedRay(r, hit, optics.compareErrorConstant), camera, castCount + 1, maxCastCount, shift);
        }
    }

    /** The colour depends only on the reflected casts actually made: capping
        the limit at `castCount + Bounces(...)` gives the same colour. */
    lemma {:induction false} RaycastNeedsOnlyBounces(optics: Optics<T>, r: Ray, camera: Ray, castCount: int, maxCastCount: int)
      requires IsSquareRoot(optics.sqrt)
      ensures Raycast(optics, r, camera, castCount, maxCastCount)
           == Raycast(optics, r, camera, castCount, castCount + Bounces(optics, r, camera, castCount, maxCastCount))
      decreases if castCount < maxCastCount then maxCastCount - castCount else 0
    {
      match ClosestOf(optics, r)
      case None =>
      case Some(found) =>
        var hit := found.(view := Normalize(Sub(camera.origin, found.position), optics.sqrt));
        if hit.mat.Some? && castCount < maxCastCount && hit.mat.value.reflection > 0.0 {
          RaycastNeedsOnlyBounces(optics, ReflectedRay(r, hit, optics.compareErrorConstant), camera, castCount + 1, maxCastCount);
        }
    }

    /** At the limit no reflected ray is cast: the colour is the shading of
        the nearest hit alone, or black. */
    lemma RaycastAtLimit(optics: Optics<T>, r: Ray, camera: Ray, castCount: int, maxCastCount: int)
      requires IsSquareRoot(optics.sqrt) && castCount >= maxCastCount
      ensures Raycast(optics, r, camera, castCount, maxCastCount)
           == match ClosestOf(optics, r)
              case None => Black
              case Some(found) =>
                Shade(optics, r, camera, found.(view := Normalize(Sub(camera.origin, found.position), optics.sqrt)))
    {
    }
  }

  /** With boxes tested and a monotone box test, a scan of the BSP candidates
      finds a hit exactly when a scan of all objects does, at the same squared
      distance: the tree prunes nothing the box test would have kept. The
      objects may be in any order relative to the list the tree was built
      from, as after `prepare`. */
  lemma BspScanAgreesWithFullScan<T>(p: Probe<T>, objs: seq<T>, built: seq<T>, maxDepth: int, minObjects: int)
    requires p.useAabb && MonotoneHit(p.hitsBox)
    requires multiset(objs) == multiset(built)
    ensures var cands := Candidates(BuildNode(built, 0, maxDepth, minObjects, p.box), p.hitsBox);
            && (Nearest(p, objs).Some? <==> Nearest(p, cands).Some?)
            && (Nearest(p, objs).Some? ==> Nearest(p, objs).value.distance == Nearest(p, cands).value.distance)
  {
    var t := BuildNode(built, 0, maxDepth, minObjects, p.box);
    var cands := Candidates(t, p.hitsBox);
    BuildEncloses(built, 0, maxDepth, minObjects, p.box);
    CandidatesWithinElements(t, p.hitsBox);
    forall i | 0 <= i < |objs| && Hits(p, objs[i])
      ensures objs[i] in cands
    {
      assert objs[i] in multiset(Elements(t));
      var k :| 0 <= k < |Elements(t)| && Elements(t)[k] == objs[i];
      NoFalseNegatives(t, p.box, p.hitsBox, k);
    }
    forall i | 0 <= i < |cands| && Hits(p, cands[i])
      ensures cands[i] in objs
    {
      assert cands[i] in multiset(cands);
      assert cands[i] in multiset(objs);
    }
    SameHitsSameDistance(p, objs, cands);
  }
}
