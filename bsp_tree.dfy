/** The binary space partition over scene objects. Objects are of any type
    `T` with a bounding box given by `box`; the ray-versus-box test is a
    parameter `hit`. The linked nodes of the original are an inductive tree:
    a null child is `Empty`, a node flagged as leaf is `Leaf`, and every
    other node is `Node`, which by construction holds no objects. */
module BSP {
  import opened Vector3Math
  import opened Bounds

  /** Default depth limit and leaf size of `BSPTree::build`. */
  const DefaultMaxDepth: int := 10
  const DefaultMinObjects: int := 2

  datatype Tree<T> =
    | Empty
    | Leaf(box: AABB, objects: seq<T>)
    | Node(box: AABB, left: Tree<T>, right: Tree<T>)

  /** Every object stored in the tree, leaves left to right. */
  function Elements<T>(t: Tree<T>): seq<T> {
    match t
    case Empty => []
    case Leaf(_, objs) => objs
    case Node(_, l, r) => Elements(l) + Elements(r)
  }

  /** Number of nodes on the longest path from the root to a leaf. */
  function Height<T>(t: Tree<T>): nat {
    match t
    case Empty => 0
    case Leaf(_, _) => 1
    case Node(_, l, r) => 1 + (if Height(l) < Height(r) then Height(r) else Height(l))
  }

  // ---------------------------------------------------------------------------
  // Bounding box of a list of objects

  function Boxes<T>(objs: seq<T>, box: T -> AABB): (r: seq<AABB>)
    ensures |r| == |objs|
    ensures forall i :: 0 <= i < |objs| ==> r[i] == box(objs[i])
  {
    seq(|objs|, i requires 0 <= i < |objs| => box(objs[i]))
  }

  /** The default box for no objects; otherwise the first object's box
      subsumed with each later one in order. */
  function BoundsOf<T>(objs: seq<T>, box: T -> AABB): AABB {
    if |objs| == 0 then DefaultBox else SubsumeAll(Boxes(objs, box))
  }

  lemma BoundsOfContainsEach<T>(objs: seq<T>, box: T -> AABB, i: nat)
    requires i < |objs|
    ensures Contains(BoundsOf(objs, box), box(objs[i]))
  {
    SubsumeAllContainsEach(Boxes(objs, box), i);
  }

  /** The accumulator loop of `computeBoundingBox`. */
  method ComputeBoundingBox<T>(objects: seq<T>, box: T -> AABB) returns (result: AABB)
    ensures result == BoundsOf(objects, box)
    ensures |objects| == 0 ==> result == DefaultBox
    ensures forall i :: 0 <= i < |objects| ==> Contains(result, box(objects[i]))
  {
    if |objects| == 0 {
      return DefaultBox;
    }
    result := box(objects[0]);
    var i := 1;
    while i < |objects|
      invariant 1 <= i <= |objects|
      invariant result == SubsumeAll(Boxes(objects[..i], box))
    {
      assert Boxes(objects[..i + 1], box)[..i] == Boxes(objects[..i], box);
      result := Subsume(result, box(objects[i]));
      i := i + 1;
    }
    assert objects[..i] == objects;
    forall k | 0 <= k < |objects|
      ensures Contains(result, box(objects[k]))
    {
      BoundsOfContainsEach(objects, box, k);
    }
  }

  // ---------------------------------------------------------------------------
  // Choice of the split axis

  /** The first axis (X before Y before Z) of maximal extent. */
  function SplitAxis(b: AABB): (axis: nat)
    ensures axis < 3
    ensures forall k: nat :: k < 3 ==> Extent(b, k) <= Extent(b, axis)
    ensures forall k: nat :: k < axis ==> Extent(b, k) < Extent(b, axis)
  {
    var extentX := b.max.x - b.min.x;
    var extentY := b.max.y - b.min.y;
    var extentZ := b.max.z - b.min.z;
    if extentX >= extentY && extentX >= extentZ then 0
    else if extentY >= extentX && extentY >= extentZ then 1
    else 2
  }

  // ---------------------------------------------------------------------------
  // Sorting by box centre

  ghost predicate SortedBy<T>(s: seq<T>, key: T -> real) {
    forall i, j :: 0 <= i < j < |s| ==> key(s[i]) <= key(s[j])
  }

  /** Coordinate of the centre of an object's box on one axis. */
  function AxisKey<T>(box: T -> AABB, axis: nat): T -> real
    requires axis < 3
  {
    o => Coord(Center(box(o)), axis)
  }

  /** Inserts `x` in front of the first element with a key not below its own. */
  function Insert<T>(x: T, s: seq<T>, key: T -> real): (r: seq<T>)
    ensures multiset(r) == multiset(s) + multiset{x}
    ensures |r| == |s| + 1
    ensures r[0] == x || (|s| > 0 && r[0] == s[0])
    ensures SortedBy(s, key) ==> SortedBy(r, key)
  {
    if |s| == 0 then [x]
    else if key(x) <= key(s[0]) then [x] + s
    else
      assert s == [s[0]] + s[1..];
      var rest := Insert(x, s[1..], key);
      assert SortedBy(s, key) ==> key(s[0]) <= key(rest[0]);
      [s[0]] + rest
  }

  /** A sort of `s` into ascending key order: a permutation of its input. */
  function SortByKey<T>(s: seq<T>, key: T -> real): (r: seq<T>)
    ensures multiset(r) == multiset(s)
    ensures SortedBy(r, key)
  {
    if |s| == 0 then []
    else
      assert s == [s[0]] + s[1..];
      Insert(s[0], SortByKey(s[1..], key), key)
  }

  // ---------------------------------------------------------------------------
  // Construction

  /** `static_cast<size_t>` of a signed count: negative values wrap around. */
  function SizeT(n: int): nat {
    n % 0x1_0000_0000_0000_0000
  }

  /** The stopping rule: few enough objects, or the depth limit reached. */
  predicate StopsAt(count: nat, depth: int, maxDepth: int, minObjects: int) {
    count <= SizeT(minObjects) || depth >= maxDepth
  }

  /** The objects of an interior node in the order it splits them: sorted by
      box centre along the split axis of their joint box. */
  function SplitOrder<T>(objs: seq<T>, box: T -> AABB): (r: seq<T>)
    ensures multiset(r) == multiset(objs)
  {
    SortByKey(objs, AxisKey(box, SplitAxis(BoundsOf(objs, box))))
  }

  /** Largest height a tree built from `depth` may have. */
  function Levels(depth: int, maxDepth: int): nat {
    if depth < maxDepth then maxDepth - depth + 1 else 1
  }

  /** The tree `buildRecursive` returns for `objs` at `depth`. */
  function BuildNode<T>(objs: seq<T>, depth: int, maxDepth: int, minObjects: int, box: T -> AABB): (t: Tree<T>)
    ensures multiset(Elements(t)) == multiset(objs)
    ensures Height(t) <= Levels(depth, maxDepth)
    decreases if depth < maxDepth then maxDepth - depth else 0
  {
    if |objs| == 0 then Empty
    else if StopsAt(|objs|, depth, maxDepth, minObjects) then Leaf(BoundsOf(objs, box), objs)
    else
      var sorted := SplitOrder(objs, box);
      var mid := |sorted| / 2;
      assert sorted == sorted[..mid] + sorted[mid..];
      var left := BuildNode(sorted[..mid], depth + 1, maxDepth, minObjects, box);
      var right := BuildNode(sorted[mid..], depth + 1, maxDepth, minObjects, box);
      assert multiset(Elements(left) + Elements(right)) == multiset(sorted[..mid]) + multiset(sorted[mid..]);
      Node(BoundsOf(objs, box), left, right)
  }

  /** What becomes of the caller's list: an interior node sorts it in place,
      a leaf or an empty list leaves it as it was. */
  function ReorderedByBuild<T>(objs: seq<T>, depth: int, maxDepth: int, minObjects: int, box: T -> AABB): (r: seq<T>)
    ensures multiset(r) == multiset(objs)
    ensures |objs| == 0 || StopsAt(|objs|, depth, maxDepth, minObjects) ==> r == objs
  {
    if |objs| == 0 || StopsAt(|objs|, depth, maxDepth, minObjects) then objs
    else SplitOrder(objs, box)
  }

  method BuildRecursive<T>(objects: seq<T>, depth: int, maxDepth: int, minObjects: int, box: T -> AABB)
    returns (node: Tree<T>, objectsAfter: seq<T>)
    ensures node == BuildNode(objects, depth, maxDepth, minObjects, box)
    ensures objectsAfter == ReorderedByBuild(objects, depth, maxDepth, minObjects, box)
    decreases if depth < maxDepth then maxDepth - depth else 0
  {
    if |objects| == 0 {
      return Empty, objects;
    }
    var bounds := ComputeBoundingBox(objects, box);
    if |objects| <= SizeT(minObjects) || depth >= maxDepth {
      return Leaf(bounds, objects), objects;
    }
    var axis := SplitAxis(bounds);
    objectsAfter := SortByKey(objects, AxisKey(box, axis));
    var mid := |objectsAfter| / 2;
    var leftObjects := objectsAfter[..mid];
    var rightObjects := objectsAfter[mid..];
    var left, leftAfter := BuildRecursive(leftObjects, depth + 1, maxDepth, minObjects, box);
    var right, rightAfter := BuildRecursive(rightObjects, depth + 1, maxDepth, minObjects, box);
    node := Node(bounds, left, right);
  }

  /** An interior node splits its objects at the median of the sorted order:
      its left subtree holds the first half (rounded down) and every object
      on the left has a box centre no further along the split axis than any
      object on the right. */
  lemma SplitByCentre<T>(objs: seq<T>, depth: int, maxDepth: int, minObjects: int, box: T -> AABB)
    requires |objs| > 0 && !StopsAt(|objs|, depth, maxDepth, minObjects)
    ensures BuildNode(objs, depth, maxDepth, minObjects, box).Node?
    ensures |Elements(BuildNode(objs, depth, maxDepth, minObjects, box).left)| == |objs| / 2
    ensures forall i, j ::
              0 <= i < |Elements(BuildNode(objs, depth, maxDepth, minObjects, box).left)| &&
              0 <= j < |Elements(BuildNode(objs, depth, maxDepth, minObjects, box).right)| ==>
                var key := AxisKey(box, SplitAxis(BoundsOf(objs, box)));
                key(Elements(BuildNode(objs, depth, maxDepth, minObjects, box).left)[i])
                  <= key(Elements(BuildNode(objs, depth, maxDepth, minObjects, box).right)[j])
  {
    var t := BuildNode(objs, depth, maxDepth, minObjects, box);
    var key := AxisKey(box, SplitAxis(BoundsOf(objs, box)));
    var sorted := SplitOrder(objs, box);
    var mid := |sorted| / 2;
    var lo, hi := sorted[..mid], sorted[mid..];
    assert multiset(Elements(t.left)) == multiset(lo);
    assert multiset(Elements(t.right)) == multiset(hi);
    assert |sorted| == |multiset(sorted)| == |multiset(objs)| == |objs|;
    assert |Elements(t.left)| == |multiset(lo)| == |lo|;
    forall i, j | 0 <= i < |Elements(t.left)| && 0 <= j < |Elements(t.right)|
      ensures key(Elements(t.left)[i]) <= key(Elements(t.right)[j])
    {
      assert Elements(t.left)[i] in multiset(lo);
      var a :| 0 <= a < |lo| && lo[a] == Elements(t.left)[i];
      assert Elements(t.right)[j] in multiset(hi);
      var b :| 0 <= b < |hi| && hi[b] == Elements(t.right)[j];
      assert sorted[a] == lo[a] && sorted[mid + b] == hi[b];
    }
  }

  /** Every leaf and every interior node sits exactly where the stopping rule
      says: leaves are non-empty and stopped, interior nodes are not. */
  ghost predicate ShapedByStoppingRule<T>(t: Tree<T>, depth: int, maxDepth: int, minObjects: int) {
    match t
    case Empty => true
    case Leaf(_, objs) => |objs| > 0 && StopsAt(|objs|, depth, maxDepth, minObjects)
    case Node(_, l, r) =>
      && !StopsAt(|Elements(t)|, depth, maxDepth, minObjects)
      && ShapedByStoppingRule(l, depth + 1, maxDepth, minObjects)
      && ShapedByStoppingRule(r, depth + 1, maxDepth, minObjects)
  }

  /** A built node is a leaf holding exactly its input iff the input is
      non-empty and the stopping rule applies, and the same holds at every
      node below it. */
  lemma {:induction false} BuildFollowsStoppingRule<T>(objs: seq<T>, depth: int, maxDepth: int, minObjects: int, box: T -> AABB)
    ensures BuildNode(objs, depth, maxDepth, minObjects, box).Leaf?
        <==> |objs| > 0 && StopsAt(|objs|, depth, maxDepth, minObjects)
    ensures BuildNode(objs, depth, maxDepth, minObjects, box).Leaf? ==>
              BuildNode(objs, depth, maxDepth, minObjects, box).objects == objs
    ensures ShapedByStoppingRule(BuildNode(objs, depth, maxDepth, minObjects, box), depth, maxDepth, minObjects)
    decreases if depth < maxDepth then maxDepth - depth else 0
  {
    var t := BuildNode(objs, depth, maxDepth, minObjects, box);
    if t.Node? {
      var sorted := SplitOrder(objs, box);
      var mid := |sorted| / 2;
      BuildFollowsStoppingRule(sorted[..mid], depth + 1, maxDepth, minObjects, box);
      BuildFollowsStoppingRule(sorted[mid..], depth + 1, maxDepth, minObjects, box);
      assert |Elements(t)| == |multiset(Elements(t))| == |multiset(objs)| == |objs|;
    }
  }

  /** Every node's box holds the box of every object stored beneath it. */
  ghost predicate Encloses<T>(t: Tree<T>, box: T -> AABB) {
    match t
    case Empty => true
    case Leaf(b, objs) => forall i :: 0 <= i < |objs| ==> Contains(b, box(objs[i]))
    case Node(b, l, r) =>
      && (forall i :: 0 <= i < |Elements(t)| ==> Contains(b, box(Elements(t)[i])))
      && Encloses(l, box) && Encloses(r, box)
  }

  lemma {:induction false} BuildEncloses<T>(objs: seq<T>, depth: int, maxDepth: int, minObjects: int, box: T -> AABB)
    ensures Encloses(BuildNode(objs, depth, maxDepth, minObjects, box), box)
    decreases if depth < maxDepth then maxDepth - depth else 0
  {
    var t := BuildNode(objs, depth, maxDepth, minObjects, box);
    match t
    case Empty =>
    case Leaf(b, _) =>
      forall i | 0 <= i < |objs|
        ensures Contains(b, box(objs[i]))
      {
        BoundsOfContainsEach(objs, box, i);
      }
    case Node(b, l, r) =>
      var sorted := SplitOrder(objs, box);
      var mid := |sorted| / 2;
      BuildEncloses(sorted[..mid], depth + 1, maxDepth, minObjects, box);
      BuildEncloses(sorted[mid..], depth + 1, maxDepth, minObjects, box);
      forall i | 0 <= i < |Elements(t)|
        ensures Contains(b, box(Elements(t)[i]))
      {
        assert Elements(t)[i] in multiset(objs);
        var j :| 0 <= j < |objs| && objs[j] == Elements(t)[i];
        BoundsOfContainsEach(objs, box, j);
      }
  }

  /** With the default parameters every leaf holds at most two objects or
      lies ten levels below the root, and the tree has at most eleven levels. */
  lemma DefaultBuildShape<T>(objs: seq<T>, box: T -> AABB)
    ensures Height(BuildNode(objs, 0, DefaultMaxDepth, DefaultMinObjects, box)) <= 11
    ensures ShapedByStoppingRule(BuildNode(objs, 0, DefaultMaxDepth, DefaultMinObjects, box), 0, 10, 2)
    ensures multiset(Elements(BuildNode(objs, 0, DefaultMaxDepth, DefaultMinObjects, box))) == multiset(objs)
  {
    BuildFollowsStoppingRule(objs, 0, DefaultMaxDepth, DefaultMinObjects, box);
  }

  // ---------------------------------------------------------------------------
  // Queries

  /** What the depth-first walk collects: the objects of every leaf whose
      box the ray hits, below a chain of hit boxes, left before right. */
  function Candidates<T>(t: Tree<T>, hit: AABB -> bool): seq<T> {
    match t
    case Empty => []
    case Leaf(b, objs) => if hit(b) then objs else []
    case Node(b, l, r) => if hit(b) then Candidates(l, hit) + Candidates(r, hit) else []
  }

  /** The walk never duplicates or invents an object: its candidates are a
      sub-multiset of the objects stored in the tree. */
  lemma {:induction false} CandidatesWithinElements<T>(t: Tree<T>, hit: AABB -> bool)
    ensures multiset(Candidates(t, hit)) <= multiset(Elements(t))
  {
    match t
    case Empty =>
    case Leaf(_, _) =>
    case Node(b, l, r) =>
      CandidatesWithinElements(l, hit);
      CandidatesWithinElements(r, hit);
  }

  /** A leaf together with the boxes from the root down to it. */
  datatype LeafEntry<T> = LeafEntry(path: seq<AABB>, objects: seq<T>)

  function Under<T>(b: AABB, es: seq<LeafEntry<T>>): seq<LeafEntry<T>> {
    if |es| == 0 then [] else [LeafEntry([b] + es[0].path, es[0].objects)] + Under(b, es[1..])
  }

  /** All leaves of the tree, left to right, each with its root path. */
  function LeafEntries<T>(t: Tree<T>): seq<LeafEntry<T>> {
    match t
    case Empty => []
    case Leaf(b, objs) => [LeafEntry([b], objs)]
    case Node(b, l, r) => Under(b, LeafEntries(l) + LeafEntries(r))
  }

  ghost predicate AllHit(path: seq<AABB>, hit: AABB -> bool) {
    forall i :: 0 <= i < |path| ==> hit(path[i])
  }

  /** The objects of those leaves every box on whose path is hit, in order. */
  ghost function Visible<T>(es: seq<LeafEntry<T>>, hit: AABB -> bool): seq<T> {
    if |es| == 0 then []
    else (if AllHit(es[0].path, hit) then es[0].objects else []) + Visible(es[1..], hit)
  }

  lemma {:induction false} VisibleAppend<T>(a: seq<LeafEntry<T>>, b: seq<LeafEntry<T>>, hit: AABB -> bool)
    ensures Visible(a + b, hit) == Visible(a, hit) + Visible(b, hit)
  {
    if |a| == 0 {
      assert a + b == b;
    } else {
      assert (a + b)[0] == a[0];
      assert (a + b)[1..] == a[1..] + b;
      VisibleAppend(a[1..], b, hit);
    }
  }

  lemma AllHitCons(b: AABB, path: seq<AABB>, hit: AABB -> bool)
    ensures AllHit([b] + path, hit) <==> hit(b) && AllHit(path, hit)
  {
    var p := [b] + path;
    assert p[0] == b;
    assert forall i :: 0 <= i < |path| ==> p[i + 1] == path[i];
  }

  lemma {:induction false} VisibleUnder<T>(b: AABB, es: seq<LeafEntry<T>>, hit: AABB -> bool)
    ensures Visible(Under(b, es), hit) == if hit(b) then Visible(es, hit) else []
  {
    if |es| > 0 {
      var u := Under(b, es);
      VisibleUnder(b, es[1..], hit);
      AllHitCons(b, es[0].path, hit);
      assert u[0] == LeafEntry([b] + es[0].path, es[0].objects);
      assert u[1..] == Under(b, es[1..]);
    }
  }

  /** The walk collects exactly the objects of the leaves whose own box and
      every ancestor box the ray hits, left to right. */
  lemma {:induction false} CandidatesAreVisibleLeaves<T>(t: Tree<T>, hit: AABB -> bool)
    ensures Candidates(t, hit) == Visible(LeafEntries(t), hit)
  {
    match t
    case Empty =>
    case Leaf(b, objs) =>
      AllHitCons(b, [], hit);
      assert [b] + [] == [b];
      assert LeafEntries(t)[1..] == [];
    case Node(b, l, r) =>
      CandidatesAreVisibleLeaves(l, hit);
      CandidatesAreVisibleLeaves(r, hit);
      VisibleUnder(b, LeafEntries(l) + LeafEntries(r), hit);
      VisibleAppend(LeafEntries(l), LeafEntries(r), hit);
  }

  /** A box test that accepts a box also accepts every box containing it;
      the geometric slab test has this property. */
  ghost predicate MonotoneHit(hit: AABB -> bool) {
    forall a, b :: Contains(a, b) && hit(b) ==> hit(a)
  }

  /** Pruning loses nothing: an object whose own box the ray hits is among
      the candidates of a tree whose boxes enclose their objects. */
  lemma {:induction false} NoFalseNegatives<T>(t: Tree<T>, box: T -> AABB, hit: AABB -> bool, i: nat)
    requires Encloses(t, box) && MonotoneHit(hit)
    requires i < |Elements(t)| && hit(box(Elements(t)[i]))
    ensures Elements(t)[i] in Candidates(t, hit)
  {
    match t
    case Leaf(b, objs) =>
      assert Contains(b, box(objs[i]));
    case Node(b, l, r) =>
      assert Contains(b, box(Elements(t)[i]));
      if i < |Elements(l)| {
        NoFalseNegatives(l, box, hit, i);
      } else {
        NoFalseNegatives(r, box, hit, i - |Elements(l)|);
      }
  }

  /** The walk of `traverseRecursive`, pushing onto `candidates`. */
  method TraverseRecursive<T>(node: Tree<T>, hit: AABB -> bool, candidates: seq<T>) returns (result: seq<T>)
    ensures result == candidates + Candidates(node, hit)
  {
    result := candidates;
    match node
    case Empty =>
    case Leaf(b, objs) =>
      if hit(b) {
        var i := 0;
        while i < |objs|
          invariant 0 <= i <= |objs|
          invariant result == candidates + objs[..i]
        {
          result := result + [objs[i]];
          i := i + 1;
        }
        assert objs[..i] == objs;
      }
    case Node(b, l, r) =>
      if hit(b) {
        result := TraverseRecursive(l, hit, result);
        result := TraverseRecursive(r, hit, result);
      }
  }

  class BSPTree<T> {
    var root: Tree<T>

    constructor()
      ensures root == Empty
    {
      root := Empty;
    }

    /** Builds the tree over `objects`; returns the caller's list as the
        build leaves it (sorted in place at the root when it is split). */
    method Build(objects: seq<T>, maxDepth: int, minObjects: int, box: T -> AABB) returns (objectsAfter: seq<T>)
      modifies this
      ensures root == BuildNode(objects, 0, maxDepth, minObjects, box)
      ensures objectsAfter == ReorderedByBuild(objects, 0, maxDepth, minObjects, box)
      ensures |objects| == 0 ==> root == Empty
    {
      if |objects| == 0 {
        root := Empty;
        return objects;
      }
      root, objectsAfter := BuildRecursive(objects, 0, maxDepth, minObjects, box);
    }

    /** Collects the candidates for a ray into a cleared list; true iff any. */
    method Intersects(hit: AABB -> bool) returns (found: bool, candidates: seq<T>)
      ensures candidates == Candidates(root, hit)
      ensures found <==> |candidates| > 0
      ensures root == Empty ==> !found
    {
      candidates := [];
      if root.Empty? {
        return false, candidates;
      }
      candidates := TraverseRecursive(root, hit, candidates);
      found := |candidates| > 0;
    }
  }
}
