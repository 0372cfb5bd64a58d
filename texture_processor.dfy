/** `MGTextureProcessor`: on iOS, when DXT compression is asked for, the texture is made a
    power-of-two square, its mip count is worked out, face 0 is premultiplied, and every
    face is compressed to PVRTC; everywhere else the standard texture processor runs. */
module TextureProcessor {
  import opened Int32
  import opened PowerOfTwo
  import opened TextureContent
  import opened PvrtcConversion
  import SurfaceFormats

  /** `MAX_TEXTURE_SIZE`: the cap on the edge of a repaired texture. */
  const MaxTextureSize: int32 := 1024

  /** `TextureProcessorOutputFormat`. */
  datatype OutputFormat = NoChange | ColorOutput | DxtCompressed

  /** How `Process` ends. */
  datatype Outcome =
      /** `base.Process(input, context)`: the standard processor's result. */
    | Delegated
      /** The input itself, its faces now PVRTC mip chains. */
    | Compressed
      /** `NotSupportedException` from the premultiply step. */
    | NotSupported
      /** `new Bitmap(newSize, newSize)` refuses a repaired edge below 1. */
    | InvalidBitmapSize

  /** Messages handed to the build logger. */
  datatype LogEntry =
      /** "Texture resized to: {width}x{height}" */
    | Resized(width: int32, height: int32)
      /** "... must be a square, power of two texture. Skipping Compression." */
    | SkippingCompression

  /** The bicubic resampler: pixel (x, y) of the newSize x newSize image drawn from a source
      with the given pixel data, width and height. */
  type Resampler = (PixelData, int32, int32, int32, nat, nat) -> Color

  /** `Color.FromNonPremultiplied(r, g, b, a)`. */
  type Premultiplier = (byte, byte, byte, byte) -> Color

  // ---------------------------------------------------------------------------------------
  // Bounds check and repair

  /** `invalidBounds`: the texture is not a square whose edge passes `isPowerOfTwo`. */
  predicate NeedsRepair(width: int32, height: int32)
  {
    height != width || !(IsPowerOfTwo(height) && IsPowerOfTwo(width))
  }

  /** For real bitmap edges, the check lets through exactly the power-of-two squares. */
  lemma NeedsRepairExactly(width: Extent, height: Extent)
    ensures !NeedsRepair(width, height) <==> width == height && IsPow2(width)
  {
  }

  /** The repaired edge `min(Pow2roundup(max(width, height)), MAX_TEXTURE_SIZE)`. */
  function RepairedSize(width: int32, height: int32): int32
  {
    Min(RoundUpPow2(Max(width, height)), MaxTextureSize)
  }

  /** The repaired edge is a power of two no larger than 1024 that passes the bounds check,
      the least power of two covering the texture when that is within the cap, and the cap
      otherwise. An edge beyond 2^30 overflows the round-up to `int.MinValue`. */
  lemma RepairedSizeShape(width: Extent, height: Extent)
    ensures var n, m := RepairedSize(width, height), Max(width, height);
      (m <= 0x4000_0000 ==> IsPow2(n) && 1 <= n <= MaxTextureSize && !NeedsRepair(n, n))
      && (m <= MaxTextureSize ==> m <= n < 2 * m)
      && (MaxTextureSize < m <= 0x4000_0000 ==> n == MaxTextureSize)
      && (0x4000_0000 < m ==> n < 1)
  {
    var m := Max(width, height);
    if m <= 0x4000_0000 {
      var r := RoundUpPow2(m);
      if r > MaxTextureSize {
        IsPow2Exact(MaxTextureSize);
        assert Pow2(Log2(1024)) == 1024;
      }
    }
  }

  /** No power of two that covers the texture and fits the cap is smaller than the repair. */
  lemma RepairedSizeLeast(width: Extent, height: Extent, p: int)
    requires IsPow2(p) && Max(width, height) <= p <= MaxTextureSize
    ensures RepairedSize(width, height) <= p
  {
    RoundUpPow2Least(Max(width, height), p);
  }

  /** A 100x50 texture is repaired to 128x128; a 128x128 one is left alone. */
  lemma RepairExample()
    ensures NeedsRepair(100, 50) && RepairedSize(100, 50) == 128
    ensures !NeedsRepair(128, 128)
  {
    assert BitLen(99) == 7;
    assert Pow2(7) == 128;
    assert IsPow2(128);
  }

  /** The pixels of the resampled level 0. */
  function Resampled(resample: Resampler, source: PixelData, width: int32, height: int32, newSize: Extent): (rows: seq<seq<Color>>)
    ensures |rows| == newSize as int && forall x :: 0 <= x < |rows| ==> |rows[x]| == newSize as int
  {
    seq(newSize, x requires 0 <= x < newSize => seq(newSize, y requires 0 <= y < newSize => resample(source, width, height, newSize, x, y)))
  }

  // ---------------------------------------------------------------------------------------
  // Mip count

  /** The number of levels in a full mip chain: floor(log2(max(width, height))) + 1. */
  function MipLevelCount(width: Extent, height: Extent): (n: int32)
    ensures 1 <= n <= 31
  {
    Log2Below31(Max(width, height));
    Log2(Max(width, height)) + 1
  }

  lemma Log2Below31(n: int32)
    requires 1 <= n
    ensures Log2(n) <= 30
  {
    Log2Bounds(n);
    Pow2Is32();
    if Log2(n) > 30 {
      Pow2Monotone(31, Log2(n));
    }
  }

  /** The halving loop: halve both edges (rounding down, never below 1) until both are 1,
      counting the levels on the way. */
  method CountMipLevels(width0: Extent, height0: Extent) returns (mipLevels: int32)
    ensures mipLevels == MipLevelCount(width0, height0)
  {
    var height: Extent := height0;
    var width: Extent := width0;
    mipLevels := 1;
    Log2Below31(Max(width0, height0));
    while height != 1 || width != 1
      invariant mipLevels as int + Log2(Max(width, height)) == Log2(Max(width0, height0)) + 1
      decreases height + width
    {
      HalveBoth(width, height);
      height := Max(height / 2, 1);
      width := Max(width / 2, 1);
      mipLevels := mipLevels + 1;
    }
  }

  /** Halving both edges lowers the log of the larger one by exactly one. */
  lemma HalveBoth(width: Extent, height: Extent)
    requires width != 1 || height != 1
    ensures Log2(Max(Max(width / 2, 1), Max(height / 2, 1))) + 1 == Log2(Max(width, height))
  {
    var m := Max(width, height);
    assert Max(Max(width / 2, 1), Max(height / 2, 1)) == m / 2;
  }

  // ---------------------------------------------------------------------------------------
  // Alpha premultiplication

  /** A pixel after the premultiply step: rebuilt from its channels when it is not fully
      opaque, kept as it is otherwise. */
  function Premultiplied(c: Color, fromNonPremultiplied: Premultiplier): Color
  {
    if c.a < 0xff then fromNonPremultiplied(c.r, c.g, c.b, c.a) else c
  }

  function PremultiplyRows(rows: seq<seq<Color>>, fromNonPremultiplied: Premultiplier): (result: seq<seq<Color>>)
    ensures |result| == |rows| && forall x :: 0 <= x < |rows| ==> |result[x]| == |rows[x]|
  {
    seq(|rows|, x requires 0 <= x < |rows| =>
      seq(|rows[x]|, y requires 0 <= y < |rows[x]| => Premultiplied(rows[x][y], fromNonPremultiplied)))
  }

  /** The step keeps the bitmap's shape and every opaque pixel, and rewrites only the
      translucent ones. */
  lemma PremultiplyKeeps(rows: seq<seq<Color>>, fromNonPremultiplied: Premultiplier, x: nat, y: nat)
    requires x < |rows| && y < |rows[x]|
    ensures rows[x][y].a == 0xff ==> PremultiplyRows(rows, fromNonPremultiplied)[x][y] == rows[x][y]
    ensures PremultiplyRows(rows, fromNonPremultiplied)[x][y] != rows[x][y] ==> rows[x][y].a < 0xff
  {
  }

  /** On a fully opaque bitmap the step changes nothing. */
  lemma PremultiplyOpaque(rows: seq<seq<Color>>, fromNonPremultiplied: Premultiplier)
    requires forall x, y :: 0 <= x < |rows| && 0 <= y < |rows[x]| ==> rows[x][y].a == 0xff
    ensures PremultiplyRows(rows, fromNonPremultiplied) == rows
  {
    var result := PremultiplyRows(rows, fromNonPremultiplied);
    forall x | 0 <= x < |rows|
      ensures result[x] == rows[x]
    {
    }
  }

  /** The premultiply loops over the rows of a `Color` bitmap, in place. */
  method PremultiplyColor(bitmap: ColorBitmap, fromNonPremultiplied: Premultiplier)
    requires bitmap.Valid()
    modifies bitmap.pixels
    ensures bitmap.Rows() == PremultiplyRows(old(bitmap.Rows()), fromNonPremultiplied)
  {
    ghost var before := bitmap.Rows();
    var x := 0;
    while x < bitmap.height
      invariant 0 <= x <= bitmap.height
      invariant forall i, j :: 0 <= i < bitmap.height && 0 <= j < bitmap.width ==>
        bitmap.pixels[i, j] == if i < x then Premultiplied(before[i][j], fromNonPremultiplied) else before[i][j]
    {
      var y := 0;
      while y < bitmap.width
        invariant 0 <= y <= bitmap.width
        invariant forall i, j :: 0 <= i < bitmap.height && 0 <= j < bitmap.width ==>
          bitmap.pixels[i, j] == if i < x || (i == x && j < y) then Premultiplied(before[i][j], fromNonPremultiplied) else before[i][j]
      {
        var c := bitmap.pixels[x, y];
        if c.a < 0xff {
          bitmap.pixels[x, y] := fromNonPremultiplied(c.r, c.g, c.b, c.a);
        }
        y := y + 1;
      }
      x := x + 1;
    }
    assert forall i :: 0 <= i < bitmap.height ==> bitmap.Rows()[i] == PremultiplyRows(before, fromNonPremultiplied)[i];
  }

  // ---------------------------------------------------------------------------------------
  // The processor

  /** Whether `Process` takes its own path: an iOS build asking for compressed output. */
  predicate CompressionRequested(platform: SurfaceFormats.Platform, format: OutputFormat)
  {
    platform == SurfaceFormats.IOS && format == DxtCompressed
  }

  /** The repair of `level0` would need a bitmap edge below 1. */
  predicate RepairFails(level0: BitmapContent)
  {
    NeedsRepair(Width(level0), Height(level0)) && RepairedSize(Width(level0), Height(level0)) < 1
  }

  /** The repair branch: draw face 0 level 0 onto a fresh power-of-two square and put that
      in its place. Returns the new edge, and the new level when the edge is at least 1. */
  method Repair(input: Texture, resample: Resampler) returns (newSize: int32, level0: BitmapContent)
    requires input.Valid()
    modifies input
    ensures newSize == RepairedSize(Width(old(input.Level0())), Height(old(input.Level0())))
    ensures newSize < 1 ==> input.faces == old(input.faces)
    ensures newSize >= 1 ==>
      level0.ColorPixels? && fresh(level0.bitmap) && fresh(level0.bitmap.pixels) && level0.bitmap.Valid()
      && level0.bitmap.width == newSize && level0.bitmap.height == newSize
      && level0.bitmap.Rows() == Resampled(resample, old(PixelsOf(input.Level0())),
           Width(old(input.Level0())), Height(old(input.Level0())), newSize)
      && input.faces == old(input.faces)[0 := old(input.faces)[0][0 := level0]]
      && input.Valid()
  {
    level0 := input.faces[0][0];
    var width := Width(level0);
    var height := Height(level0);
    var originalBytes := PixelsOf(level0);
    var rounded := Pow2Roundup(Max(width, height));
    newSize := Min(rounded, MaxTextureSize);
    if newSize < 1 {
      return;
    }
    var bitmap := new ColorBitmap(newSize, newSize,
      (x: nat, y: nat) => resample(originalBytes, width, height, newSize, x, y));
    assert forall x :: 0 <= x < newSize ==>
      bitmap.Rows()[x] == Resampled(resample, originalBytes, width, height, newSize)[x];
    level0 := ColorPixels(bitmap);
    input.faces := input.faces[0 := input.faces[0][0 := level0]];
  }

  /** The bounds check on face 0, level 0 and, when it fails, the repair. `ok` is false when
      the repaired edge would be below 1, the `InvalidBitmapSize` case; otherwise `level0` is
      the level that passes the check, now in face 0, level 0. */
  method CheckBounds(input: Texture, resample: Resampler) returns (ok: bool, level0: BitmapContent, log: seq<LogEntry>)
    requires input.Valid()
    modifies input
    ensures input.Valid() && SkippingCompression !in log
    ensures ok <==> !RepairFails(old(input.Level0()))
    ensures !ok ==> log == [] && input.faces == old(input.faces)
    ensures ok ==> input.Level0() == level0 && ValidLevel(level0) && !NeedsRepair(Width(level0), Height(level0))
    ensures ok ==> input.faces == old(input.faces)[0 := old(input.faces)[0][0 := level0]]
    ensures ok && level0.ColorPixels? ==>
      level0.bitmap.Rows() == if level0 == old(input.Level0()) then old(level0.bitmap.Rows())
        else Resampled(resample, old(PixelsOf(input.Level0())), Width(old(input.Level0())),
                       Height(old(input.Level0())), Width(level0))
    ensures !NeedsRepair(Width(old(input.Level0())), Height(old(input.Level0()))) ==>
      log == [] && level0 == old(input.Level0()) && input.faces == old(input.faces)
    ensures (NeedsRepair(Width(old(input.Level0())), Height(old(input.Level0()))) && !RepairFails(old(input.Level0()))) ==>
      var n := RepairedSize(Width(old(input.Level0())), Height(old(input.Level0())));
      log == [Resized(n, n)] && level0.ColorPixels? && fresh(level0.bitmap) && fresh(level0.bitmap.pixels)
      && level0.bitmap.Valid() && Width(level0) == n && Height(level0) == n
      && level0.bitmap.Rows() == Resampled(resample, old(PixelsOf(input.Level0())),
           Width(old(input.Level0())), Height(old(input.Level0())), n)
      && input.faces == old(input.faces)[0 := old(input.faces)[0][0 := level0]]
  {
    log := [];
    level0 := input.faces[0][0];
    var height: int32 := Height(level0);
    var width: int32 := Width(level0);
    var invalidBounds := height != width || !(IsPowerOfTwo(height) && IsPowerOfTwo(width));
    if invalidBounds {
      var newSize;
      newSize, level0 := Repair(input, resample);
      if newSize < 1 {
        return false, level0, log;
      }
      RepairedSizeShape(width, height);
      log := log + [Resized(newSize, newSize)];
    } else {
      assert old(input.faces)[0][0 := level0] == old(input.faces)[0];
    }
    return true, level0, log;
  }

  /** `MGTextureProcessor` with its settings; `TextureFormat`, `GenerateMipmaps` and
      `PremultiplyAlpha` are the inherited `TextureProcessor` properties. */
  class MGTextureProcessor {
    var textureFormat: OutputFormat
    var compressionMode: CompressionMode
    var generateMipmaps: bool
    var premultiplyAlpha: bool

    /** A processor whose compression mode has its default, PVRTC at 4 bits per pixel. */
    constructor (textureFormat: OutputFormat, generateMipmaps: bool, premultiplyAlpha: bool)
      ensures this.compressionMode == PVRTCFourBitsPerPixel
      ensures this.textureFormat == textureFormat && this.generateMipmaps == generateMipmaps
      ensures this.premultiplyAlpha == premultiplyAlpha
    {
      this.textureFormat := textureFormat;
      this.compressionMode := PVRTCFourBitsPerPixel;
      this.generateMipmaps := generateMipmaps;
      this.premultiplyAlpha := premultiplyAlpha;
    }

    /** `Process`. The ghost `level0` is face 0, level 0 as the codec sees it: the input's own
        or, after a repair, the resampled one. */
    method Process(input: Texture, platform: SurfaceFormats.Platform, resample: Resampler,
                   fromNonPremultiplied: Premultiplier, codec: Codec)
      returns (outcome: Outcome, log: seq<LogEntry>, ghost level0: BitmapContent)
      requires input.Valid() && CodecFits(codec)
      modifies this`textureFormat, input, input.Level0Arrays()
      // The compression-eligibility warning is never logged.
      ensures SkippingCompression !in log
      // Outside iOS, or without DXT output asked for, the standard processor runs.
      ensures !CompressionRequested(platform, old(textureFormat)) ==>
        outcome == Delegated && log == [] && input.faces == old(input.faces)
        && textureFormat == old(textureFormat) && unchanged(old(input.Level0Arrays()))
      // A power-of-two square is not touched by the repair.
      ensures (CompressionRequested(platform, old(textureFormat))
               && !NeedsRepair(Width(old(input.Level0())), Height(old(input.Level0())))) ==>
        log == [] && level0 == old(input.Level0())
      // Anything else is repaired, or fails when the repaired edge is not a valid bitmap edge.
      ensures (CompressionRequested(platform, old(textureFormat)) && RepairFails(old(input.Level0()))) ==>
        outcome == InvalidBitmapSize && log == [] && input.faces == old(input.faces)
        && unchanged(old(input.Level0Arrays())) && textureFormat == old(textureFormat)
      // The repair only reads the level it replaces.
      ensures (CompressionRequested(platform, old(textureFormat))
               && NeedsRepair(Width(old(input.Level0())), Height(old(input.Level0())))) ==>
        unchanged(old(input.Level0Arrays()))
      ensures (CompressionRequested(platform, old(textureFormat))
               && NeedsRepair(Width(old(input.Level0())), Height(old(input.Level0())))
               && !RepairFails(old(input.Level0()))) ==>
        var n := RepairedSize(Width(old(input.Level0())), Height(old(input.Level0())));
        log == [Resized(n, n)] && level0.ColorPixels? && fresh(level0.bitmap) && level0.bitmap.Valid()
        && Width(level0) == n && Height(level0) == n
        && ((outcome == Delegated || !premultiplyAlpha) ==>
              level0.bitmap.Rows() == Resampled(resample, old(PixelsOf(input.Level0())),
                Width(old(input.Level0())), Height(old(input.Level0())), n))
      // Past the repair the bounds check always passes.
      ensures (CompressionRequested(platform, old(textureFormat)) && !RepairFails(old(input.Level0()))) ==>
        ValidLevel(level0) && !NeedsRepair(Width(level0), Height(level0))
      // The fallback runs exactly when no compression mode is set, and switches to Color output.
      ensures (CompressionRequested(platform, old(textureFormat)) && !RepairFails(old(input.Level0()))
               && compressionMode == NoCompression) ==>
        outcome == Delegated && textureFormat == ColorOutput
        && input.faces == old(input.faces)[0 := old(input.faces)[0][0 := level0]]
      // Premultiplying is only defined for Color and Vector4 pixels.
      ensures (CompressionRequested(platform, old(textureFormat)) && !RepairFails(old(input.Level0()))
               && compressionMode != NoCompression) ==>
        textureFormat == old(textureFormat)
        && (outcome == NotSupported <==> premultiplyAlpha && !level0.ColorPixels? && !level0.Vector4Pixels?)
        && (outcome != NotSupported ==> outcome == Compressed)
      ensures outcome == NotSupported ==>
        input.faces == old(input.faces) && unchanged(old(input.Level0Arrays()))
      // The pixels of level 0: as they were (or as resampled by the repair), premultiplied in
      // place when a compressed texture asks for it, and otherwise left alone.
      ensures (CompressionRequested(platform, old(textureFormat)) && !RepairFails(old(input.Level0()))
               && level0.ColorPixels?) ==>
        level0.bitmap.Valid()
        && level0.bitmap.Rows() ==
             var rows0 := if level0 == old(input.Level0()) then old(level0.bitmap.Rows())
               else Resampled(resample, old(PixelsOf(input.Level0())), Width(old(input.Level0())),
                              Height(old(input.Level0())), Width(level0));
             if outcome == Compressed && premultiplyAlpha then PremultiplyRows(rows0, fromNonPremultiplied) else rows0
      // Every face becomes the codec's mip chain for its level 0, with one level or a full chain.
      ensures outcome == Compressed ==>
        var mipLevels := if generateMipmaps then MipLevelCount(Width(level0), Height(level0)) else 1;
        |input.faces| == |old(input.faces)|
        && input.faces[0] == FaceBlocks(level0, mipLevels, premultiplyAlpha, compressionMode, codec)
        && forall j :: 1 <= j < |input.faces| ==>
             input.faces[j] == FaceBlocks(old(input.faces)[j][0], mipLevels, premultiplyAlpha, compressionMode, codec)
    {
      log := [];
      var face0 := input.faces[0][0];
      level0 := face0;
      if platform != SurfaceFormats.IOS {
        return Delegated, log, level0;
      }
      if textureFormat != DxtCompressed {
        return Delegated, log, level0;
      }
      outcome, log, level0 := ProcessForCompression(input, resample, fromNonPremultiplied, codec);
    }

    /** `Process` once it has decided to compress: lines past the two pass-through tests. */
    method ProcessForCompression(input: Texture, resample: Resampler, fromNonPremultiplied: Premultiplier, codec: Codec)
      returns (outcome: Outcome, log: seq<LogEntry>, ghost level0: BitmapContent)
      requires input.Valid() && CodecFits(codec)
      modifies this`textureFormat, input, input.Level0Arrays()
      ensures SkippingCompression !in log
      ensures !NeedsRepair(Width(old(input.Level0())), Height(old(input.Level0()))) ==>
        log == [] && level0 == old(input.Level0())
      ensures RepairFails(old(input.Level0())) ==>
        outcome == InvalidBitmapSize && log == [] && input.faces == old(input.faces)
        && unchanged(old(input.Level0Arrays())) && textureFormat == old(textureFormat)
      // The repair only reads the level it replaces.
      ensures NeedsRepair(Width(old(input.Level0())), Height(old(input.Level0()))) ==>
        unchanged(old(input.Level0Arrays()))
      ensures (NeedsRepair(Width(old(input.Level0())), Height(old(input.Level0())))
               && !RepairFails(old(input.Level0()))) ==>
        var n := RepairedSize(Width(old(input.Level0())), Height(old(input.Level0())));
        log == [Resized(n, n)] && level0.ColorPixels? && fresh(level0.bitmap) && level0.bitmap.Valid()
        && Width(level0) == n && Height(level0) == n
        && ((outcome == Delegated || !premultiplyAlpha) ==>
              level0.bitmap.Rows() == Resampled(resample, old(PixelsOf(input.Level0())),
                Width(old(input.Level0())), Height(old(input.Level0())), n))
      ensures !RepairFails(old(input.Level0())) ==>
        ValidLevel(level0) && !NeedsRepair(Width(level0), Height(level0))
      ensures (!RepairFails(old(input.Level0())) && compressionMode == NoCompression) ==>
        outcome == Delegated && textureFormat == ColorOutput
        && input.faces == old(input.faces)[0 := old(input.faces)[0][0 := level0]]
      ensures (!RepairFails(old(input.Level0())) && compressionMode != NoCompression) ==>
        textureFormat == old(textureFormat)
        && (outcome == NotSupported <==> premultiplyAlpha && !level0.ColorPixels? && !level0.Vector4Pixels?)
        && (outcome != NotSupported ==> outcome == Compressed)
      ensures outcome == NotSupported ==>
        input.faces == old(input.faces) && unchanged(old(input.Level0Arrays()))
      // The pixels of level 0: as they were (or as resampled by the repair), premultiplied in
      // place when a compressed texture asks for it, and otherwise left alone.
      ensures (!RepairFails(old(input.Level0())) && level0.ColorPixels?) ==>
        level0.bitmap.Valid()
        && level0.bitmap.Rows() ==
             var rows0 := if level0 == old(input.Level0()) then old(level0.bitmap.Rows())
               else Resampled(resample, old(PixelsOf(input.Level0())), Width(old(input.Level0())),
                              Height(old(input.Level0())), Width(level0));
             if outcome == Compressed && premultiplyAlpha then PremultiplyRows(rows0, fromNonPremultiplied) else rows0
      // Every face becomes the codec's mip chain for its level 0, with one level or a full chain.
      ensures outcome == Compressed ==>
        var mipLevels := if generateMipmaps then MipLevelCount(Width(level0), Height(level0)) else 1;
        |input.faces| == |old(input.faces)|
        && input.faces[0] == FaceBlocks(level0, mipLevels, premultiplyAlpha, compressionMode, codec)
        && forall j :: 1 <= j < |input.faces| ==>
             input.faces[j] == FaceBlocks(old(input.faces)[j][0], mipLevels, premultiplyAlpha, compressionMode, codec)
    {
      ghost var arrays0 := input.Level0Arrays();
      ghost var repaired := NeedsRepair(Width(input.Level0()), Height(input.Level0()));
      var ok, face0;
      ok, face0, log := CheckBounds(input, resample);
      level0 := face0;
      if !ok {
        return InvalidBitmapSize, log, level0;
      }
      assert repaired ==> arrays0 !! PixelArrays(face0);
      // The pixels level 0 holds now: as they were, or the resampled ones after a repair.
      ghost var rows0 := if !face0.ColorPixels? then []
        else if face0 == old(input.Level0()) then old(face0.bitmap.Rows())
        else Resampled(resample, old(PixelsOf(input.Level0())), Width(old(input.Level0())),
                       Height(old(input.Level0())), Width(face0));
      var more;
      outcome, more := FallBackOrCompress(input, face0, false, resample, fromNonPremultiplied, codec,
                                          old(input.faces), rows0);
      log := log + more;
    }

    /** The rest of `Process`: the uncompressed fallback, or the mip count, premultiply and
        conversion. The bounds check has passed by now, so the fallback's warning is never
        logged. */
    method FallBackOrCompress(input: Texture, level0: BitmapContent, invalidBounds: bool, resample: Resampler,
                              fromNonPremultiplied: Premultiplier, codec: Codec,
                              ghost faces0: seq<seq<BitmapContent>>, ghost rows0: seq<seq<Color>>)
      returns (outcome: Outcome, log: seq<LogEntry>)
      requires input.Valid() && CodecFits(codec) && input.Level0() == level0
      requires invalidBounds == NeedsRepair(Width(level0), Height(level0)) && !invalidBounds
      requires forall j :: 0 <= j < |faces0| ==> |faces0[j]| > 0 && ValidLevel(faces0[j][0])
      requires |faces0| > 0 && input.faces == faces0[0 := faces0[0][0 := level0]]
      requires level0.ColorPixels? ==> level0.bitmap.Rows() == rows0
      modifies this`textureFormat, input, PixelArrays(level0)
      ensures log == []
      ensures compressionMode == NoCompression ==>
        outcome == Delegated && textureFormat == ColorOutput && input.faces == old(input.faces)
      ensures compressionMode != NoCompression ==>
        textureFormat == old(textureFormat)
        && (outcome == NotSupported <==> premultiplyAlpha && !level0.ColorPixels? && !level0.Vector4Pixels?)
        && (outcome != NotSupported ==> outcome == Compressed)
      ensures outcome == NotSupported ==> input.faces == old(input.faces) && unchanged(PixelArrays(level0))
      ensures level0.ColorPixels? ==>
        level0.bitmap.Rows() == if outcome == Compressed && premultiplyAlpha then PremultiplyRows(rows0, fromNonPremultiplied) else rows0
      ensures outcome == Compressed ==>
        var mipLevels := if generateMipmaps then MipLevelCount(Width(level0), Height(level0)) else 1;
        |input.faces| == |faces0|
        && input.faces[0] == FaceBlocks(level0, mipLevels, premultiplyAlpha, compressionMode, codec)
        && forall j :: 1 <= j < |input.faces| ==>
             input.faces[j] == FaceBlocks(faces0[j][0], mipLevels, premultiplyAlpha, compressionMode, codec)
    {
      log := [];
      // `invalidBounds` is false by now, so the warning below is never logged.
      if invalidBounds || compressionMode == NoCompression {
        if compressionMode != NoCompression {
          log := log + [SkippingCompression];
        }
        textureFormat := ColorOutput;
        return Delegated, log;
      }
      outcome := CompressFaces(input, level0, generateMipmaps, premultiplyAlpha, compressionMode,
                               fromNonPremultiplied, codec);
    }
  }

  /** The compression path past the bounds check: count the levels, premultiply face 0,
      level 0, and convert every face. */
  method CompressFaces(input: Texture, level0: BitmapContent, generateMipmaps: bool, premultiplyAlpha: bool,
                       compressionMode: CompressionMode, fromNonPremultiplied: Premultiplier, codec: Codec)
    returns (outcome: Outcome)
    requires input.Valid() && CodecFits(codec) && input.Level0() == level0
    modifies input, PixelArrays(level0)
    ensures outcome == NotSupported <==> premultiplyAlpha && !level0.ColorPixels? && !level0.Vector4Pixels?
    ensures outcome != NotSupported ==> outcome == Compressed
    ensures outcome == NotSupported ==> input.faces == old(input.faces) && unchanged(PixelArrays(level0))
    ensures premultiplyAlpha && level0.ColorPixels? ==>
      level0.bitmap.Rows() == PremultiplyRows(old(level0.bitmap.Rows()), fromNonPremultiplied)
    ensures !premultiplyAlpha ==> unchanged(PixelArrays(level0))
    ensures outcome == Compressed ==>
      var mipLevels := if generateMipmaps then MipLevelCount(Width(level0), Height(level0)) else 1;
      |input.faces| == |old(input.faces)|
      && forall j :: 0 <= j < |input.faces| ==>
           input.faces[j] == FaceBlocks(old(input.faces)[j][0], mipLevels, premultiplyAlpha, compressionMode, codec)
  {
    var mipLevels: int32 := 1;
    if generateMipmaps {
      mipLevels := CountMipLevels(Width(level0), Height(level0));
    }
    if premultiplyAlpha {
      if level0.ColorPixels? {
        PremultiplyColor(level0.bitmap, fromNonPremultiplied);
      } else if !level0.Vector4Pixels? {
        return NotSupported;
      }
    }
    var converted := ConvertToPVRTC(input, mipLevels, premultiplyAlpha, compressionMode, codec);
    return Compressed;
  }
}
