/** The camera and its render loop: one segment covering every row, each
    pixel traced through the scene and written into the image. The image
    class itself is not part of this model; it is a two-dimensional pixel
    buffer indexed by column and row, written through `SetPixel`. */
module CameraModel {
  import opened Vector3Math
  import opened SceneTypes
  import opened BSP
  import opened SceneModel

  class Image {
    const width: nat
    const height: nat
    const pixels: array2<Color>

    ghost predicate Valid() {
      pixels.Length0 == width && pixels.Length1 == height
    }

    constructor(width: nat, height: nat)
      ensures Valid() && fresh(pixels)
      ensures this.width == width && this.height == height
    {
      this.width := width;
      this.height := height;
      pixels := new Color[width, height]((x, y) => Black);
    }

    method SetPixel(x: int, y: int, c: Color)
      requires Valid() && 0 <= x < width && 0 <= y < height
      modifies pixels
      ensures pixels[x, y] == c
      ensures forall i, j :: 0 <= i < width && 0 <= j < height && (i != x || j != y) ==>
                pixels[i, j] == old(pixels[i, j])
    {
      pixels[x, y] := c;
    }
  }

  /** Where the rays of a segment start: one unit behind the image plane. */
  const EyePoint := Vector3(0.0, 0.0, -1.0)

  /** The ray through pixel (x, y): from the eye point towards the point
      (-0.5 + x * intervalX, halfHeight - y * intervalY, 0) on the image plane. */
  function PixelRay(x: int, y: int, halfHeight: real, intervalX: real, intervalY: real): (r: Ray)
    ensures r.origin == EyePoint
    ensures Add(r.origin, r.direction)
         == Vector3(-0.5 + x as real * intervalX, halfHeight - y as real * intervalY, 0.0)
  {
    var coord := Vector3(-0.5 + x as real * intervalX, halfHeight - y as real * intervalY, 0.0);
    Ray(EyePoint, Sub(coord, EyePoint))
  }

  /** The work of one render segment: a band of rows of one image. */
  datatype Segment<!T, !L> = Segment(
    rowMin: int,
    rowMax: int,
    image: Image,
    height: real,
    halfHeight: real,
    intervalX: real,
    intervalY: real,
    reflections: int,
    scene: Scene<T, L>)

  /** The colour the segment writes at (x, y). */
  function PixelColor<T, L>(seg: Segment<T, L>, optics: Optics<T>, x: int, y: int): Color
    reads seg.scene, seg.scene.bspTree
    requires IsSquareRoot(optics.sqrt)
  {
    var ray := PixelRay(x, y, seg.halfHeight, seg.intervalX, seg.intervalY);
    seg.scene.Raycast(optics, ray, ray, 0, seg.reflections)
  }

  /** Writes every pixel of the rows `rowMin <= y < rowMax` with the colour
      traced through it, and no other pixel. */
  method RenderSegment<T, L>(seg: Segment<T, L>, optics: Optics<T>)
    requires seg.image.Valid() && IsSquareRoot(optics.sqrt)
    requires 0 <= seg.rowMin && seg.rowMax <= seg.image.height
    modifies seg.image.pixels
    ensures forall x, y :: 0 <= x < seg.image.width && seg.rowMin <= y < seg.rowMax ==>
              seg.image.pixels[x, y] == PixelColor(seg, optics, x, y)
    ensures forall x, y ::
              (0 <= x < seg.image.width && 0 <= y < seg.image.height && !(seg.rowMin <= y < seg.rowMax)) ==>
                seg.image.pixels[x, y] == old(seg.image.pixels[x, y])
  {
    var image := seg.image;
    var y := seg.rowMin;
    while y < seg.rowMax
      invariant seg.rowMin <= y && (y <= seg.rowMax || y == seg.rowMin)
      invariant forall i, j :: 0 <= i < image.width && seg.rowMin <= j < y && j < seg.rowMax ==>
                  image.pixels[i, j] == PixelColor(seg, optics, i, j)
      invariant forall i, j ::
                  (0 <= i < image.width && 0 <= j < image.height && !(seg.rowMin <= j < y && j < seg.rowMax)) ==>
                    image.pixels[i, j] == old(image.pixels[i, j])
    {
      var x := 0;
      while x < image.width
        invariant 0 <= x <= image.width
        invariant forall i, j :: 0 <= i < image.width && seg.rowMin <= j < y ==>
                    image.pixels[i, j] == PixelColor(seg, optics, i, j)
        invariant forall i :: 0 <= i < x ==> image.pixels[i, y] == PixelColor(seg, optics, i, y)
        invariant forall i, j ::
                    (0 <= i < image.width && 0 <= j < image.height && !(seg.rowMin <= j < y) && !(j == y && i < x)) ==>
                      image.pixels[i, j] == old(image.pixels[i, j])
      {
        var ray := PixelRay(x, y, seg.halfHeight, seg.intervalX, seg.intervalY);
        var pixel := seg.scene.Raycast(optics, ray, ray, 0, seg.reflections);
        image.SetPixel(x, y, pixel);
        x := x + 1;
      }
      y := y + 1;
    }
  }

  class Camera {
    var position: Vector3
    var reflections: int

    constructor(pos: Vector3, reflections: int)
      ensures position == pos && this.reflections == reflections
    {
      position := pos;
      this.reflections := reflections;
    }

    /** The default camera sits at the origin. */
    constructor AtOrigin(reflections: int)
      ensures position == Zero && this.reflections == reflections
    {
      position := Zero;
      this.reflections := reflections;
    }

    method GetPosition() returns (pos: Vector3)
      ensures pos == position
    {
      return position;
    }

    method SetPosition(pos: Vector3)
      modifies this
      ensures position == pos && reflections == old(reflections)
    {
      position := pos;
    }

    /** Prepares the scene, then renders the whole image in one segment.
        With a zero dimension there is no pixel to trace. */
    method Render<T, L>(image: Image, scene: Scene<T, L>, ops: ObjectOps<T>, optics: Optics<T>)
      requires image.Valid() && IsSquareRoot(optics.sqrt)
      modifies image.pixels, scene, scene.bspTree
      ensures var ready := scene.PreparedAll(ops, old(scene.objects));
              && (scene.useBsp ==> scene.objects == ReorderedByBuild(ready, 0, DefaultMaxDepth, DefaultMinObjects, ops.box))
              && (scene.useBsp ==> scene.bspTree.root == BuildNode(ready, 0, DefaultMaxDepth, DefaultMinObjects, ops.box))
              && (!scene.useBsp ==> scene.objects == ready && scene.bspTree.root == old(scene.bspTree.root))
              && multiset(scene.objects) == multiset(ready)
      ensures scene.lights == old(scene.lights)
      ensures image.width > 0 && image.height > 0 ==>
                var w := image.width as real;
                forall x, y :: 0 <= x < image.width && 0 <= y < image.height ==>
                  var ray := PixelRay(x, y, (image.height as real / w) * 0.5, 1.0 / w, 1.0 / w);
                  image.pixels[x, y] == scene.Raycast(optics, ray, ray, 0, reflections)
    {
      scene.Prepare(ops);
      if image.width == 0 || image.height == 0 {
        return;
      }
      var ratio := image.width as real / image.height as real;
      var height := 1.0 / ratio;
      var intervalX := 1.0 / image.width as real;
      var intervalY := height / image.height as real;
      var halfHeight := height * 0.5;
      ViewportIntervals(image.width, image.height);
      var seg := Segment(0, image.height, image, height, halfHeight, intervalX, intervalY, reflections, scene);
      RenderSegment(seg, optics);
      WholeImageSegment(seg, optics);
    }
  }

  /** A segment over every row, with the intervals `render` computes, that
      has written its colours has written every pixel of the image with the
      colour of the ray through it. */
  lemma WholeImageSegment<T, L>(seg: Segment<T, L>, optics: Optics<T>)
    requires seg.image.Valid() && IsSquareRoot(optics.sqrt)
    requires seg.image.width > 0 && seg.rowMin == 0 && seg.rowMax == seg.image.height
    requires var w := seg.image.width as real;
             seg.intervalX == 1.0 / w && seg.intervalY == 1.0 / w
             && seg.halfHeight == (seg.image.height as real / w) * 0.5
    requires forall x, y :: 0 <= x < seg.image.width && seg.rowMin <= y < seg.rowMax ==>
               seg.image.pixels[x, y] == PixelColor(seg, optics, x, y)
    ensures var w := seg.image.width as real;
            forall x, y :: 0 <= x < seg.image.width && 0 <= y < seg.image.height ==>
              var ray := PixelRay(x, y, (seg.image.height as real / w) * 0.5, 1.0 / w, 1.0 / w);
              seg.image.pixels[x, y] == seg.scene.Raycast(optics, ray, ray, 0, seg.reflections)
  {
  }

  /** For positive dimensions both pixel intervals are 1/width, and half the
      viewport height is (height/width)/2. */
  lemma ViewportIntervals(width: nat, height: nat)
    requires width > 0 && height > 0
    ensures var ratio := width as real / height as real;
            && (1.0 / ratio) / height as real == 1.0 / width as real
            && (1.0 / ratio) * 0.5 == (height as real / width as real) * 0.5
  {
    var w, h := width as real, height as real;
    assert 1.0 / (w / h) == h / w;
    calc {
      (h / w) / h;
      { assert (h / w) / h * w == 1.0; }
      1.0 / w;
    }
  }
}
