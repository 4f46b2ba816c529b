/** A triangle mesh: its triangles, its box, and the BSP over its triangles.
    Triangles are values of any type `Tri`; what the mesh asks of them (take
    the mesh's material and transform, apply the transform, recompute the
    box, read the box, test a ray) is a parameter, as is the constructor that
    turns one loaded face into a triangle. The OBJ file reader itself is not
    part of this model: its output, per loaded sub-mesh a vertex list and an
    index list, is the input. */
module MeshModel {
  import opened Vector3Math
  import opened Bounds
  import opened SceneTypes
  import opened BSP
  import opened ClosestHit
  import opened Numerals

  /** Depth limit and leaf size of the BSP over a mesh's triangles. */
  const TriangleMaxDepth: int := 15
  const TriangleMinObjects: int := 4

  datatype TriangleOps<!Tri, !Mat, !Xf> = TriangleOps(
    setMaterial: (Tri, Mat) -> Tri,
    setTransform: (Tri, Xf) -> Tri,
    applyTransform: Tri -> Tri,
    calculateBoundingBox: Tri -> Tri,
    box: Tri -> AABB)

  /** One sub-mesh as the OBJ reader delivers it. */
  datatype LoadedMesh = LoadedMesh(vertices: seq<Vector3>, indices: seq<int>)

  /** One triangle as the loader creates it: three corners, a name and an ID. */
  datatype Face = Face(v1: Vector3, v2: Vector3, v3: Vector3, name: string, id: int)

  /** The indices come in whole triples, each naming an existing vertex. */
  predicate WellIndexed(m: LoadedMesh) {
    && |m.indices| % 3 == 0
    && forall i :: 0 <= i < |m.indices| ==> 0 <= m.indices[i] < |m.vertices|
  }

  /** The face the loader makes from the index triple starting at `j`. */
  function FaceAt(m: LoadedMesh, j: nat): (f: Face)
    requires WellIndexed(m) && j + 2 < |m.indices|
    ensures f.id == j && f.name == "T:" + Decimal(j)
  {
    Face(m.vertices[m.indices[j]], m.vertices[m.indices[j + 1]], m.vertices[m.indices[j + 2]],
         "T:" + Decimal(j), j)
  }

  /** The faces of one sub-mesh: one per consecutive index triple. */
  function Faces(m: LoadedMesh): (fs: seq<Face>)
    requires WellIndexed(m)
    ensures |fs| == |m.indices| / 3
    ensures forall k :: 0 <= k < |fs| ==> fs[k] == FaceAt(m, 3 * k)
  {
    seq(|m.indices| / 3, k requires 0 <= k < |m.indices| / 3 => FaceAt(m, 3 * k))
  }

  /** Within one sub-mesh, no two faces share a name or an ID. */
  lemma FaceNamesDistinct(m: LoadedMesh, k1: nat, k2: nat)
    requires WellIndexed(m) && k1 < |Faces(m)| && k2 < |Faces(m)| && k1 != k2
    ensures Faces(m)[k1].id != Faces(m)[k2].id
    ensures Faces(m)[k1].name != Faces(m)[k2].name
  {
    if Faces(m)[k1].name == Faces(m)[k2].name {
      assert ("T:" + Decimal(3 * k1))[2..] == Decimal(3 * k1);
      assert ("T:" + Decimal(3 * k2))[2..] == Decimal(3 * k2);
      DecimalInjective(3 * k1, 3 * k2);
    }
  }

  predicate AllWellIndexed(ms: seq<LoadedMesh>) {
    forall i :: 0 <= i < |ms| ==> WellIndexed(ms[i])
  }

  /** The faces of all sub-meshes in order; IDs restart at 0 in each. */
  function AllFaces(ms: seq<LoadedMesh>): seq<Face>
    requires AllWellIndexed(ms)
  {
    if |ms| == 0 then []
    else
      assert AllWellIndexed(ms[..|ms| - 1]);
      AllFaces(ms[..|ms| - 1]) + Faces(ms[|ms| - 1])
  }

  function MapFaces<Tri>(make: Face -> Tri, fs: seq<Face>): (ts: seq<Tri>)
    ensures |ts| == |fs|
    ensures forall i :: 0 <= i < |fs| ==> ts[i] == make(fs[i])
  {
    seq(|fs|, i requires 0 <= i < |fs| => make(fs[i]))
  }

  /** Loading one more sub-mesh appends its faces' triangles. */
  lemma MapAllFacesStep<Tri>(make: Face -> Tri, ms: seq<LoadedMesh>, i: nat)
    requires AllWellIndexed(ms) && i < |ms|
    ensures AllWellIndexed(ms[..i]) && AllWellIndexed(ms[..i + 1])
    ensures MapFaces(make, AllFaces(ms[..i + 1]))
         == MapFaces(make, AllFaces(ms[..i])) + MapFaces(make, Faces(ms[i]))
  {
    var prefix := ms[..i + 1];
    assert prefix[..i] == ms[..i] && prefix[i] == ms[i];
    assert AllFaces(prefix) == AllFaces(ms[..i]) + Faces(ms[i]);
  }

  class Mesh<Tri, Mat, Xf> {
    var triangles: seq<Tri>
    var boundingBox: AABB
    var material: Mat
    var transform: Xf
    const triangleBSP: BSPTree<Tri>
    const useAabb: bool
    const useBsp: bool

    constructor(material: Mat, transform: Xf, useAabb: bool, useBsp: bool)
      ensures triangles == [] && boundingBox == DefaultBox
      ensures this.material == material && this.transform == transform
      ensures this.useAabb == useAabb && this.useBsp == useBsp
      ensures fresh(triangleBSP) && triangleBSP.root == Empty
    {
      triangles := [];
      boundingBox := DefaultBox;
      this.material := material;
      this.transform := transform;
      triangleBSP := new BSPTree();
      this.useAabb := useAabb;
      this.useBsp := useBsp;
    }

    /** One triangle after the mesh's `applyTransform`. */
    function Adopted(ops: TriangleOps<Tri, Mat, Xf>, t: Tri): Tri
      reads this
    {
      ops.applyTransform(ops.setTransform(ops.setMaterial(t, material), transform))
    }

    /** Hands the mesh's material and transform to every triangle and has
        each apply it; nothing else changes. */
    method ApplyTransform(ops: TriangleOps<Tri, Mat, Xf>)
      modifies this
      ensures |triangles| == |old(triangles)|
      ensures forall i :: 0 <= i < |triangles| ==> triangles[i] == Adopted(ops, old(triangles)[i])
      ensures boundingBox == old(boundingBox) && material == old(material) && transform == old(transform)
    {
      ghost var initial := triangles;
      var count := |triangles|;
      for i := 0 to count
        invariant |triangles| == count
        invariant forall k :: 0 <= k < i ==> triangles[k] == Adopted(ops, initial[k])
        invariant forall k :: i <= k < count ==> triangles[k] == initial[k]
        invariant boundingBox == old(boundingBox) && material == old(material) && transform == old(transform)
      {
        var t := ops.setMaterial(triangles[i], material);
        t := ops.setTransform(t, transform);
        triangles := triangles[i := ops.applyTransform(t)];
      }
    }

    /** The inner loop of `loadFromObj`: one triangle pushed per index
        triple of one sub-mesh, ID and name taken from the triple's start. */
    method AppendFaces(curMesh: LoadedMesh, make: Face -> Tri)
      requires WellIndexed(curMesh)
      modifies this
      ensures triangles == old(triangles) + MapFaces(make, Faces(curMesh))
      ensures boundingBox == old(boundingBox) && material == old(material) && transform == old(transform)
    {
      var faces := Faces(curMesh);
      var j := 0;
      ghost var k := 0;
      while j < |curMesh.indices|
        invariant 0 <= k <= |faces| && j == 3 * k
        invariant triangles == old(triangles) + MapFaces(make, faces[..k])
        invariant boundingBox == old(boundingBox) && material == old(material) && transform == old(transform)
      {
        var v1 := curMesh.vertices[curMesh.indices[j]];
        var v2 := curMesh.vertices[curMesh.indices[j + 1]];
        var v3 := curMesh.vertices[curMesh.indices[j + 2]];
        var face := Face(v1, v2, v3, "T:" + Decimal(j), j);
        assert face == faces[k];
        assert faces[..k + 1] == faces[..k] + [face];
        triangles := triangles + [make(face)];
        j, k := j + 3, k + 1;
      }
      assert faces[..k] == faces;
    }

    /** Appends one triangle per index triple of every loaded sub-mesh (none
        when the file could not be read), then applies the transform to all. */
    method LoadFromObj(loaded: Option<seq<LoadedMesh>>, make: Face -> Tri, ops: TriangleOps<Tri, Mat, Xf>)
      requires loaded.Some? ==> AllWellIndexed(loaded.value)
      modifies this
      ensures var added := if loaded.Some? then MapFaces(make, AllFaces(loaded.value)) else [];
              var created := old(triangles) + added;
              |triangles| == |created| &&
              forall i :: 0 <= i < |triangles| ==> triangles[i] == Adopted(ops, created[i])
      ensures boundingBox == old(boundingBox) && material == old(material) && transform == old(transform)
    {
      if loaded.Some? {
        var meshes := loaded.value;
        ghost var before := triangles;
        for i := 0 to |meshes|
          invariant triangles == before + MapFaces(make, AllFaces(meshes[..i]))
          invariant boundingBox == old(boundingBox) && material == old(material) && transform == old(transform)
        {
          MapAllFacesStep(make, meshes, i);
          AppendFaces(meshes[i], make);
        }
        assert meshes[..|meshes|] == meshes;
      }
      ApplyTransform(ops);
    }

    /** Recomputes every triangle's box and sets the mesh box to their hull
        (both corners at the origin for an empty mesh); then, with the BSP on
        and at least one triangle, rebuilds the triangle tree. */
    method CalculateBoundingBox(ops: TriangleOps<Tri, Mat, Xf>)
      modifies this, triangleBSP
      ensures |triangles| == |old(triangles)|
      ensures forall i :: 0 <= i < |triangles| ==> triangles[i] == ops.calculateBoundingBox(old(triangles)[i])
      ensures boundingBox == BoundsOf(triangles, ops.box)
      ensures |triangles| == 0 ==> boundingBox == AABB(Zero, Zero)
      ensures forall i :: 0 <= i < |triangles| ==> Contains(boundingBox, ops.box(triangles[i]))
      ensures useBsp && |triangles| > 0 ==>
                triangleBSP.root == BuildNode(triangles, 0, TriangleMaxDepth, TriangleMinObjects, ops.box)
      ensures !useBsp || |triangles| == 0 ==> triangleBSP.root == old(triangleBSP.root)
      ensures material == old(material) && transform == old(transform)
    {
      if |triangles| == 0 {
        boundingBox := AABB(Zero, Zero);
        return;
      }
      ghost var initial := triangles;
      var count := |triangles|;
      triangles := triangles[0 := ops.calculateBoundingBox(triangles[0])];
      boundingBox := ops.box(triangles[0]);
      for i := 1 to count
        invariant |triangles| == count
        invariant forall k :: 0 <= k < i ==> triangles[k] == ops.calculateBoundingBox(initial[k])
        invariant forall k :: i <= k < count ==> triangles[k] == initial[k]
        invariant boundingBox == SubsumeAll(Boxes(triangles[..i], ops.box))
        invariant material == old(material) && transform == old(transform)
        invariant triangleBSP.root == old(triangleBSP.root)
      {
        triangles := triangles[i := ops.calculateBoundingBox(triangles[i])];
        assert Boxes(triangles[..i + 1], ops.box)[..i] == Boxes(triangles[..i], ops.box);
        boundingBox := Subsume(boundingBox, ops.box(triangles[i]));
      }
      assert triangles[..count] == triangles;
      forall k | 0 <= k < count
        ensures Contains(boundingBox, ops.box(triangles[k]))
      {
        BoundsOfContainsEach(triangles, ops.box, k);
      }
      if useBsp {
        var triangleObjects := triangles;
        var reordered := triangleBSP.Build(triangleObjects, TriangleMaxDepth, TriangleMinObjects, ops.box);
      }
    }

    /** The triangles a ray query considers: the BSP candidates, or all. */
    function Scope(hitsBox: AABB -> bool): seq<Tri>
      reads this, triangleBSP
    {
      if useBsp then Candidates(triangleBSP.root, hitsBox) else triangles
    }

    /** The nearest triangle hit. On a miss of the mesh box, when no triangle
        is hit, or when the BSP yields no candidates, the caller's record is
        returned unchanged. */
    method Intersects(box: Tri -> AABB, hitsBox: AABB -> bool, intersect: Tri -> Option<Intersection>,
                      origin: Vector3, intersection: Intersection)
      returns (found: bool, result: Intersection)
      ensures var p := Probe(origin, useAabb, box, hitsBox, intersect);
              && (found <==> (!useAabb || hitsBox(boundingBox)) && Nearest(p, Scope(hitsBox)).Some?)
              && (found ==> result == Nearest(p, Scope(hitsBox)).value)
      ensures !found ==> result == intersection
      ensures useAabb && !hitsBox(boundingBox) ==> !found
    {
      if useAabb && !hitsBox(boundingBox) {
        return false, intersection;
      }
      var probe := Probe(origin, useAabb, box, hitsBox, intersect);
      var closestFound: bool, closestInter: Intersection;
      if useBsp {
        var any, candidates := triangleBSP.Intersects(hitsBox);
        if !any {
          return false, intersection;
        }
        closestFound, closestInter := Scan(probe, candidates);
      } else {
        closestFound, closestInter := Scan(probe, triangles);
      }
      if !closestFound {
        return false, intersection;
      }
      return true, closestInter;
    }
  }
}
