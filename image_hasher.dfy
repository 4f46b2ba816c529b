/** The image hasher of the regression tests: the 64-bit FNV-1a hash of a
    decoded image's bytes, written as 16 lowercase hexadecimal digits, and
    the comparison, saving and loading of such hashes. PNG decoding and the
    file system are parameters: a decoded image is `Some(bytes)` or `None`
    for a decoding error, a file to read is `Some(text)` or `None` when it
    cannot be opened, and whether a file can be opened for writing is a
    predicate on its path. */
module ImageHasher {
  import opened SceneTypes
  import opened Numerals

  const FnvOffset: bv64 := 0xcbf29ce484222325
  const FnvPrime: bv64 := 0x100000001b3

  /** One byte of FNV-1a: exclusive-or the byte in, then multiply by the
      prime modulo 2^64 (`bv64` arithmetic wraps as `uint64_t` does). */
  function FnvStep(h: bv64, b: bv8): bv64 {
    (h ^ b as bv64) * FnvPrime
  }

  /** The hash state after feeding `data`, in order, to state `h`. */
  function FnvFold(h: bv64, data: seq<bv8>): bv64
    decreases |data|
  {
    if |data| == 0 then h else FnvFold(FnvStep(h, data[0]), data[1..])
  }

  /** The FNV-1a hash of `data`: the fold from the offset basis. */
  function Fnv1a(data: seq<bv8>): bv64 {
    FnvFold(FnvOffset, data)
  }

  /** Hashing can resume from an intermediate state: feeding `a + b` is
      feeding `a`, then `b`. */
  lemma {:induction false} FnvFoldAppend(h: bv64, a: seq<bv8>, b: seq<bv8>)
    ensures FnvFold(h, a + b) == FnvFold(FnvFold(h, a), b)
    decreases |a|
  {
    if |a| > 0 {
      assert (a + b)[0] == a[0];
      assert (a + b)[1..] == a[1..] + b;
      FnvFoldAppend(FnvStep(h, a[0]), a[1..], b);
    } else {
      assert a + b == b;
    }
  }

  /** The hash of one more byte is one more step on the hash so far. */
  lemma Fnv1aIncremental(data: seq<bv8>, b: bv8)
    ensures Fnv1a(data + [b]) == FnvStep(Fnv1a(data), b)
  {
    FnvFoldAppend(FnvOffset, data, [b]);
  }

  /** The empty input hashes to the offset basis. */
  lemma Fnv1aEmpty()
    ensures Fnv1a([]) == FnvOffset
  {
  }

  /** The published FNV-1a 64-bit test vector for the one-byte input "a". */
  lemma Fnv1aOfA()
    ensures Fnv1a([0x61]) == 0xaf63dc4c8601ec8c
  {
  }

  /** The hash loop over a byte buffer. */
  method SimpleHash(data: seq<bv8>) returns (hash: bv64)
    ensures hash == Fnv1a(data)
  {
    hash := FnvOffset;
    for i := 0 to |data|
      invariant hash == Fnv1a(data[..i])
    {
      Fnv1aIncremental(data[..i], data[i]);
      assert data[..i + 1] == data[..i] + [data[i]];
      hash := FnvStep(hash, data[i]);
    }
    assert data[..|data|] == data;
  }

  /** 16^16 = 2^64: sixteen hexadecimal digits hold every 64-bit value. */
  lemma SixteenHexDigits()
    ensures Power(16, 16) == 0x1_0000_0000_0000_0000
  {
    assert Power(16, 4) == 0x1_0000;
    assert Power(16, 8) == 0x1_0000_0000 by {
      assert Power(16, 5) == 0x10_0000;
      assert Power(16, 6) == 0x100_0000;
      assert Power(16, 7) == 0x1000_0000;
    }
    assert Power(16, 12) == 0x1_0000_0000_0000 by {
      assert Power(16, 9) == 0x10_0000_0000;
      assert Power(16, 10) == 0x100_0000_0000;
      assert Power(16, 11) == 0x1000_0000_0000;
    }
    assert Power(16, 13) == 0x10_0000_0000_0000;
    assert Power(16, 14) == 0x100_0000_0000_0000;
    assert Power(16, 15) == 0x1000_0000_0000_0000;
  }

  lemma HashFitsSixteenDigits(h: bv64)
    ensures h as nat < Power(16, 16)
  {
    SixteenHexDigits();
  }

  /** A hash as 16 zero-padded lowercase hexadecimal digits. */
  function HashToHex(h: bv64): (s: string)
    ensures |s| == 16
    ensures forall i :: 0 <= i < |s| ==> s[i] in DigitChars
    ensures FromDigits(s, 16) == h as nat
  {
    var n: nat := h as nat;
    HashFitsSixteenDigits(h);
    FixedHexRoundTrip(n, 16);
    FixedHex(n, 16)
  }

  lemma ValueDeterminesHash(a: bv64, b: bv64)
    requires a as int == b as int
    ensures a == b
  {
    var x := a as int;
    assert x as bv64 == a;
    assert x as bv64 == b;
  }

  /** Distinct hashes are written differently. */
  lemma HashToHexInjective(a: bv64, b: bv64)
    requires HashToHex(a) == HashToHex(b)
    ensures a == b
  {
    assert FromDigits(HashToHex(a), 16) == FromDigits(HashToHex(b), 16);
    ValueDeterminesHash(a, b);
  }

  /** The hash of a decoded image, or the empty string when it did not decode. */
  function ComputeImageHash(decoded: Option<seq<bv8>>): (s: string)
    ensures s == "" <==> decoded.None?
    ensures decoded.Some? ==> FromDigits(s, 16) == Fnv1a(decoded.value) as nat
  {
    match decoded
    case None => ""
    case Some(bytes) => HashToHex(Fnv1a(bytes))
  }

  /** Two images match when both decode and their hash strings are equal. */
  function CompareByHash(decoded1: Option<seq<bv8>>, decoded2: Option<seq<bv8>>): (same: bool)
    ensures same ==> decoded1.Some? && decoded2.Some?
    ensures decoded1.Some? && decoded1 == decoded2 ==> same
  {
    var hash1 := ComputeImageHash(decoded1);
    var hash2 := ComputeImageHash(decoded2);
    if hash1 == "" || hash2 == "" then false else hash1 == hash2
  }

  /** Comparing hash strings is comparing the 64-bit hashes: a match needs
      both images to decode, and then holds exactly when the byte buffers
      hash alike. In particular a decodable image matches itself. */
  lemma CompareByHashMeansEqualHashes(decoded1: Option<seq<bv8>>, decoded2: Option<seq<bv8>>)
    ensures CompareByHash(decoded1, decoded2)
        <==> decoded1.Some? && decoded2.Some? && Fnv1a(decoded1.value) == Fnv1a(decoded2.value)
  {
    if decoded1.Some? && decoded2.Some? && CompareByHash(decoded1, decoded2) {
      HashToHexInjective(Fnv1a(decoded1.value), Fnv1a(decoded2.value));
    }
  }

  /** What `saveHash` does: nothing, or write `contents` to the file at `path`. */
  datatype SaveOutcome = NotSaved | Saved(path: string, contents: string)

  /** The file a hash is saved to: the given hash path, or the image path
      with ".hash" appended when none is given. */
  function HashPathFor(imagePath: string, hashPath: string): (p: string)
    ensures hashPath != "" ==> p == hashPath
    ensures hashPath == "" ==> |p| == |imagePath| + 5 && p[..|imagePath|] == imagePath && p[|imagePath|..] == ".hash"
  {
    if hashPath == "" then imagePath + ".hash" else hashPath
  }

  /** Saves the image's hash followed by a line end; fails when the image
      does not decode or the file cannot be opened for writing. */
  function SaveHash(decoded: Option<seq<bv8>>, imagePath: string, hashPath: string, canOpen: string -> bool): (r: SaveOutcome)
    ensures r.Saved? <==> decoded.Some? && canOpen(HashPathFor(imagePath, hashPath))
    ensures r.Saved? ==> r.path == HashPathFor(imagePath, hashPath)
  {
    var hash := ComputeImageHash(decoded);
    if hash == "" then NotSaved
    else
      var outputPath := HashPathFor(imagePath, hashPath);
      if !canOpen(outputPath) then NotSaved
      else Saved(outputPath, hash + "\n")
  }

  /** The text up to (not including) the first line end. */
  function FirstLine(text: string): (line: string)
    ensures '\n' !in line
    ensures |line| <= |text| && text[..|line|] == line
    ensures |line| < |text| ==> text[|line|] == '\n'
  {
    if |text| == 0 || text[0] == '\n' then "" else [text[0]] + FirstLine(text[1..])
  }

  /** The first line of a hash file, or the empty string when it cannot be
      opened. */
  function LoadHash(file: Option<string>): (hash: string)
    ensures '\n' !in hash
    ensures file.None? ==> hash == ""
    ensures file.Some? ==> |hash| <= |file.value| && file.value[..|hash|] == hash
    ensures file.Some? && |hash| < |file.value| ==> file.value[|hash|] == '\n'
  {
    match file
    case None => ""
    case Some(text) => FirstLine(text)
  }

  /** A line without a line end reads back whole. */
  lemma {:induction false} FirstLineOfLine(line: string, rest: string)
    requires '\n' !in line
    ensures FirstLine(line + "\n" + rest) == line
  {
    if |line| > 0 {
      assert (line + "\n" + rest)[1..] == line[1..] + "\n" + rest;
      FirstLineOfLine(line[1..], rest);
    }
  }

  /** Loading a saved hash file gives back the hash that was saved. */
  lemma SaveThenLoad(decoded: Option<seq<bv8>>, imagePath: string, hashPath: string, canOpen: string -> bool)
    requires SaveHash(decoded, imagePath, hashPath, canOpen).Saved?
    ensures LoadHash(Some(SaveHash(decoded, imagePath, hashPath, canOpen).contents)) == ComputeImageHash(decoded)
  {
    var hash := ComputeImageHash(decoded);
    assert '\n' !in hash by {
      assert forall i :: 0 <= i < |hash| ==> hash[i] in DigitChars;
    }
    FirstLineOfLine(hash, "");
    assert hash + "\n" + "" == hash + "\n";
  }
}
