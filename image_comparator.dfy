/** The image comparator of the regression tests: two PNG files match when
    both decode, their dimensions agree, and every RGBA byte of the first
    `width * height * 4` differs by at most a tolerance. PNG decoding is a
    parameter mapping a path to the decoded image, or `None` on a decoding
    error. */
module ImageComparator {
  import opened SceneTypes

  const DefaultTolerance := 2
  const UInt32Limit := 0x1_0000_0000

  const ReferenceDirectory := "../../tests/references/"

  /** An `unsigned char` of a decoded buffer. */
  newtype byte = x: int | 0 <= x < 256

  datatype DecodedImage = DecodedImage(width: nat, height: nat, rgba: seq<byte>)

  /** What the decoder guarantees of a decoded image: `unsigned` (32-bit)
      dimensions and four bytes, RGBA, per pixel. */
  predicate WellDecoded(d: Option<DecodedImage>) {
    d.Some? ==>
      && d.value.width < UInt32Limit && d.value.height < UInt32Limit
      && |d.value.rgba| == d.value.width * d.value.height * 4
  }

  /** The reference image of a test: the test name between the reference
      directory and the ".png" extension. */
  function ReferenceImagePath(testName: string): (p: string)
    ensures |p| == |ReferenceDirectory| + |testName| + 4
    ensures p[..|ReferenceDirectory|] == ReferenceDirectory
    ensures p[|ReferenceDirectory|..|p| - 4] == testName
    ensures p[|p| - 4..] == ".png"
  {
    ReferenceDirectory + testName + ".png"
  }

  /** Different tests have different reference images. */
  lemma ReferenceImagePathInjective(name1: string, name2: string)
    requires ReferenceImagePath(name1) == ReferenceImagePath(name2)
    ensures name1 == name2
  {
    var p := ReferenceImagePath(name1);
    assert name1 == p[|ReferenceDirectory|..|p| - 4];
  }

  /** The number of bytes compared: the pixel count is the product of two
      `unsigned` values, so it wraps modulo 2^32 before it is widened and
      multiplied by four. */
  function NumValues(width: nat, height: nat): (n: nat)
    ensures n <= width * height * 4
    ensures width * height < UInt32Limit ==> n == width * height * 4
  {
    ((width * height) % UInt32Limit) * 4
  }

  /** The absolute difference of two bytes, taken as `int`. */
  function Diff(a: byte, b: byte): (d: nat)
    ensures d < 256
    ensures d == 0 <==> a == b
  {
    if a as int >= b as int then a as int - b as int else b as int - a as int
  }

  /** How many of the first `n` byte pairs differ by more than `tolerance`. */
  function DiffCount(image1: seq<byte>, image2: seq<byte>, n: nat, tolerance: int): (count: nat)
    requires n <= |image1| && n <= |image2|
    ensures count <= n
  {
    if n == 0 then 0
    else DiffCount(image1, image2, n - 1, tolerance)
         + (if Diff(image1[n - 1], image2[n - 1]) > tolerance then 1 else 0)
  }

  /** The running maximum over the first `n` byte pairs of the differences
      that exceed `tolerance`, starting from 0. */
  function MaxDiff(image1: seq<byte>, image2: seq<byte>, n: nat, tolerance: int): nat
    requires n <= |image1| && n <= |image2|
  {
    if n == 0 then 0
    else
      var m := MaxDiff(image1, image2, n - 1, tolerance);
      var diff := Diff(image1[n - 1], image2[n - 1]);
      if diff > tolerance && diff > m then diff else m
  }

  /** No pair exceeds the tolerance exactly when the count is zero. */
  lemma {:induction false} DiffCountZeroIff(image1: seq<byte>, image2: seq<byte>, n: nat, tolerance: int)
    requires n <= |image1| && n <= |image2|
    ensures DiffCount(image1, image2, n, tolerance) == 0
        <==> forall i :: 0 <= i < n ==> Diff(image1[i], image2[i]) <= tolerance
  {
    if n > 0 {
      DiffCountZeroIff(image1, image2, n - 1, tolerance);
    }
  }

  /** The maximum is 0 when no pair exceeds the tolerance; otherwise it is
      the difference of some exceeding pair and no exceeding pair differs
      by more. */
  lemma {:induction false} MaxDiffIsLargestExcess(image1: seq<byte>, image2: seq<byte>, n: nat, tolerance: int)
    requires n <= |image1| && n <= |image2|
    ensures forall i :: 0 <= i < n && Diff(image1[i], image2[i]) > tolerance ==>
              Diff(image1[i], image2[i]) <= MaxDiff(image1, image2, n, tolerance)
    ensures DiffCount(image1, image2, n, tolerance) == 0 ==> MaxDiff(image1, image2, n, tolerance) == 0
    ensures DiffCount(image1, image2, n, tolerance) > 0 ==>
              exists i :: 0 <= i < n && Diff(image1[i], image2[i]) > tolerance
                       && Diff(image1[i], image2[i]) == MaxDiff(image1, image2, n, tolerance)
  {
    if n > 0 {
      MaxDiffIsLargestExcess(image1, image2, n - 1, tolerance);
      var m := MaxDiff(image1, image2, n - 1, tolerance);
      var diff := Diff(image1[n - 1], image2[n - 1]);
      if DiffCount(image1, image2, n - 1, tolerance) > 0 && !(diff > tolerance && diff > m) {
        var i :| 0 <= i < n - 1 && Diff(image1[i], image2[i]) > tolerance && Diff(image1[i], image2[i]) == m;
        assert 0 <= i < n;
      }
    }
  }

  /** Swapping the images changes neither the count nor the maximum. */
  lemma {:induction false} DiffSymmetric(image1: seq<byte>, image2: seq<byte>, n: nat, tolerance: int)
    requires n <= |image1| && n <= |image2|
    ensures DiffCount(image1, image2, n, tolerance) == DiffCount(image2, image1, n, tolerance)
    ensures MaxDiff(image1, image2, n, tolerance) == MaxDiff(image2, image1, n, tolerance)
  {
    if n > 0 {
      DiffSymmetric(image1, image2, n - 1, tolerance);
      assert Diff(image1[n - 1], image2[n - 1]) == Diff(image2[n - 1], image1[n - 1]);
    }
  }

  /** The comparison loop: counts the byte pairs beyond the tolerance and
      keeps the largest such difference. */
  method CountDifferences(image1: seq<byte>, image2: seq<byte>, numValues: nat, tolerance: int)
    returns (diffCount: nat, maxDiff: nat)
    requires numValues <= |image1| && numValues <= |image2|
    ensures diffCount == DiffCount(image1, image2, numValues, tolerance)
    ensures maxDiff == MaxDiff(image1, image2, numValues, tolerance)
  {
    diffCount, maxDiff := 0, 0;
    for i := 0 to numValues
      invariant diffCount == DiffCount(image1, image2, i, tolerance)
      invariant maxDiff == MaxDiff(image1, image2, i, tolerance)
    {
      var diff := if image1[i] as int >= image2[i] as int then image1[i] as int - image2[i] as int
                  else image2[i] as int - image1[i] as int;
      if diff > tolerance {
        diffCount := diffCount + 1;
        if diff > maxDiff {
          maxDiff := diff;
        }
      }
    }
  }

  /** Whether two decoded images match within `tolerance`. */
  function Matches(d1: Option<DecodedImage>, d2: Option<DecodedImage>, tolerance: int): bool
    requires WellDecoded(d1) && WellDecoded(d2)
  {
    if d1.None? || d2.None? then false
    else if d1.value.width != d2.value.width || d1.value.height != d2.value.height then false
    else DiffCount(d1.value.rgba, d2.value.rgba, NumValues(d1.value.width, d1.value.height), tolerance) == 0
  }

  /** A match means: both decode, the dimensions agree, and every compared
      byte is within the tolerance; for fewer than 2^32 pixels the compared
      bytes are all of them. */
  lemma MatchesMeansWithinTolerance(d1: Option<DecodedImage>, d2: Option<DecodedImage>, tolerance: int)
    requires WellDecoded(d1) && WellDecoded(d2)
    ensures Matches(d1, d2, tolerance) <==>
              && d1.Some? && d2.Some?
              && d1.value.width == d2.value.width && d1.value.height == d2.value.height
              && forall i :: 0 <= i < NumValues(d1.value.width, d1.value.height) ==>
                   Diff(d1.value.rgba[i], d2.value.rgba[i]) <= tolerance
    ensures (d1.Some? && d1.value.width * d1.value.height < UInt32Limit) ==>
              NumValues(d1.value.width, d1.value.height) == |d1.value.rgba|
  {
    if d1.Some? && d2.Some? && d1.value.width == d2.value.width && d1.value.height == d2.value.height {
      DiffCountZeroIff(d1.value.rgba, d2.value.rgba, NumValues(d1.value.width, d1.value.height), tolerance);
    }
  }

  /** The verdict does not depend on the argument order. */
  lemma MatchesSymmetric(d1: Option<DecodedImage>, d2: Option<DecodedImage>, tolerance: int)
    requires WellDecoded(d1) && WellDecoded(d2)
    ensures Matches(d1, d2, tolerance) == Matches(d2, d1, tolerance)
  {
    if d1.Some? && d2.Some? && d1.value.width == d2.value.width && d1.value.height == d2.value.height {
      DiffSymmetric(d1.value.rgba, d2.value.rgba, NumValues(d1.value.width, d1.value.height), tolerance);
    }
  }

  /** Decodes both files and compares them byte by byte; the tolerance
      defaults to 2 per channel. */
  method Compare(image1Path: string, image2Path: string, decode: string -> Option<DecodedImage>,
                 tolerance: int := DefaultTolerance)
    returns (ok: bool)
    requires WellDecoded(decode(image1Path)) && WellDecoded(decode(image2Path))
    ensures ok == Matches(decode(image1Path), decode(image2Path), tolerance)
  {
    var image1 := decode(image1Path);
    if image1.None? {
      return false;
    }
    var image2 := decode(image2Path);
    if image2.None? {
      return false;
    }
    var width1, height1 := image1.value.width, image1.value.height;
    if width1 != image2.value.width || height1 != image2.value.height {
      return false;
    }
    var numValues := NumValues(width1, height1);
    var diffCount, maxDiff := CountDifferences(image1.value.rgba, image2.value.rgba, numValues, tolerance);
    if diffCount > 0 {
      return false;
    }
    return true;
  }

  /** Compares a test's reference image, as the first argument, with a
      generated image. */
  method CompareWithReference(testName: string, generatedPath: string,
                              decode: string -> Option<DecodedImage>, tolerance: int := DefaultTolerance)
    returns (ok: bool)
    requires WellDecoded(decode(ReferenceImagePath(testName))) && WellDecoded(decode(generatedPath))
    ensures ok == Matches(decode(ReferenceImagePath(testName)), decode(generatedPath), tolerance)
  {
    var referencePath := ReferenceImagePath(testName);
    ok := Compare(referencePath, generatedPath, decode, tolerance);
  }
}
