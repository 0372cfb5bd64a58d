/** Surface formats as the framework knows them at load time: the numeric `SurfaceFormat`
    codes, the per-platform substitution the cube reader applies, and the byte size of one
    compressed square image that the cube texture reserves per face. */
module SurfaceFormats {
  import opened Int32
  import opened Wrappers

  /** A `SurfaceFormat`. The reader casts whatever int32 the stream holds to the enum, so
      every int32 is a possible value, named or not. */
  type SurfaceFormat = int32

  const Color: SurfaceFormat := 0
  const Dxt1: SurfaceFormat := 4
  const Dxt3: SurfaceFormat := 5
  const Dxt5: SurfaceFormat := 6
  const NormalizedByte4: SurfaceFormat := 8
  const RgbPvrtc2Bpp: SurfaceFormat := 50
  const RgbPvrtc4Bpp: SurfaceFormat := 51
  const RgbaPvrtc2Bpp: SurfaceFormat := 52
  const RgbaPvrtc4Bpp: SurfaceFormat := 53

  /** The platform a build targets or a reader runs on. */
  datatype Platform = IOS | Android | OtherPlatform

  // ---------------------------------------------------------------------------------------
  // Format substitution at load time

  /** The format the cube reader hands to the texture in place of `format`: PVRTC in place
      of DXT3/DXT5 on iOS, `Color` in place of any DXT format on Android, and `Color` in place
      of `NormalizedByte4` everywhere. */
  function Substitute(platform: Platform, format: SurfaceFormat): SurfaceFormat
  {
    if platform == IOS && format == Dxt3 then RgbaPvrtc2Bpp
    else if platform == IOS && format == Dxt5 then RgbaPvrtc4Bpp
    else if platform == Android && (format == Dxt1 || format == Dxt3 || format == Dxt5) then Color
    else if format == NormalizedByte4 then Color
    else format
  }

  /** The formats a platform's reader replaces. */
  predicate Replaced(platform: Platform, format: SurfaceFormat)
  {
    format == NormalizedByte4
    || (platform == IOS && (format == Dxt3 || format == Dxt5))
    || (platform == Android && (format == Dxt1 || format == Dxt3 || format == Dxt5))
  }

  /** Only the formats in the platform's table change, and what they change into is never
      itself in the table. */
  lemma SubstituteTable(platform: Platform, format: SurfaceFormat)
    ensures Substitute(platform, format) != format <==> Replaced(platform, format)
    ensures !Replaced(platform, Substitute(platform, format))
  {
  }

  /** Substituting twice is substituting once. */
  lemma SubstituteIdempotent(platform: Platform, format: SurfaceFormat)
    ensures Substitute(platform, Substitute(platform, format)) == Substitute(platform, format)
  {
    SubstituteTable(platform, format);
  }

  /** The table entry by entry: NormalizedByte4 to Color on every platform, DXT3/DXT5 to
      the RGBA PVRTC formats on iOS, every DXT format to Color on Android. */
  lemma SubstituteEntries(platform: Platform)
    ensures Substitute(platform, NormalizedByte4) == Color
    ensures platform == IOS ==>
      Substitute(platform, Dxt3) == RgbaPvrtc2Bpp && Substitute(platform, Dxt5) == RgbaPvrtc4Bpp
      && Substitute(platform, Dxt1) == Dxt1
    ensures platform == Android ==>
      Substitute(platform, Dxt1) == Color && Substitute(platform, Dxt3) == Color
      && Substitute(platform, Dxt5) == Color
    ensures platform == OtherPlatform ==>
      Substitute(platform, Dxt1) == Dxt1 && Substitute(platform, Dxt3) == Dxt3
      && Substitute(platform, Dxt5) == Dxt5
  {
  }

  // ---------------------------------------------------------------------------------------
  // Compressed image sizes

  /** The edge up to which the size formulas stay inside the int32 range. */
  const MaxExactEdge: int := 16384

  predicate IsPvrtc2Bpp(format: SurfaceFormat) { format == RgbPvrtc2Bpp || format == RgbaPvrtc2Bpp }
  predicate IsPvrtc4Bpp(format: SurfaceFormat) { format == RgbPvrtc4Bpp || format == RgbaPvrtc4Bpp }
  predicate IsDxt(format: SurfaceFormat) { format == Dxt1 || format == Dxt3 || format == Dxt5 }

  /** The C# int expressions of the image-size switch, each operation wrapping on overflow
      and each `/` truncating toward zero. */
  function Pvrtc2BppSize(s: int32): int32
  {
    TruncDiv(Wrap(Max(s, 8) * Max(s, 8) * 2 + 7), 8)
  }

  function Pvrtc4BppSize(s: int32): int32
  {
    TruncDiv(Wrap(Max(s, 16) * Max(s, 8) * 4 + 7), 8)
  }

  /** Number of 4-pixel blocks along an edge, `(s + 3) / 4`. */
  function Blocks(s: int32): int32
  {
    TruncDiv(Wrap(s as int + 3), 4)
  }

  function DxtSize(s: int32, blockBytes: int): int32
  {
    Wrap(Blocks(s) * Blocks(s) * blockBytes * 1)
  }

  /** The byte size the cube texture reserves for one compressed face of edge `s`; no
      size for a compressed format outside the switch, where the constructor throws. */
  function CompressedImageSize(format: SurfaceFormat, s: int32): (r: Option<int32>)
    ensures r.Some? <==> IsPvrtc2Bpp(format) || IsPvrtc4Bpp(format) || IsDxt(format)
  {
    if IsPvrtc2Bpp(format) then Some(Pvrtc2BppSize(s))
    else if IsPvrtc4Bpp(format) then Some(Pvrtc4BppSize(s))
    else if format == Dxt1 then Some(DxtSize(s, 8))
    else if format == Dxt3 || format == Dxt5 then Some(DxtSize(s, 16))
    else None
  }

  /** Up to `MaxExactEdge` nothing wraps: each formula is its exact mathematical value. */
  lemma ImageSizeExact(s: int32)
    requires 1 <= s <= MaxExactEdge
    ensures Pvrtc2BppSize(s) == (Max(s, 8) * Max(s, 8) * 2 + 7) / 8
    ensures Pvrtc4BppSize(s) == (Max(s, 16) * Max(s, 8) * 4 + 7) / 8
    ensures Blocks(s) == (s + 3) / 4
    ensures DxtSize(s, 8) == Blocks(s) * Blocks(s) * 8
    ensures DxtSize(s, 16) == Blocks(s) * Blocks(s) * 16
  {
    ProductBound(Max(s, 8), Max(s, 8), MaxExactEdge);
    ProductBound(Max(s, 16), Max(s, 8), MaxExactEdge);
    ProductBound(Blocks(s), Blocks(s), 4096);
  }

  lemma ProductBound(a: int, b: int, n: int)
    requires 0 <= a <= n && 0 <= b <= n
    ensures 0 <= a * b <= n * n
  {
    MulMonotone(a, b, n, n);
  }

  lemma MulMonotone(a: int, b: int, c: int, d: int)
    requires 0 <= a <= c && 0 <= b <= d
    ensures a * b <= c * d
  {
    assert a * b <= c * b;
    assert c * b <= c * d;
  }

  /** DXT3 and DXT5 blocks carry twice the bytes of DXT1 blocks. */
  lemma DxtDoubles(s: int32)
    requires 1 <= s <= MaxExactEdge
    ensures CompressedImageSize(Dxt3, s) == CompressedImageSize(Dxt5, s)
    ensures CompressedImageSize(Dxt3, s).value == 2 * CompressedImageSize(Dxt1, s).value
  {
    ImageSizeExact(s);
  }

  /** The PVRTC sizes never go below the 8x8 (2 bpp) and 16x8 (4 bpp) minimum images. */
  lemma PvrtcMinimum(s: int32)
    requires 1 <= s <= MaxExactEdge
    ensures Pvrtc2BppSize(s) >= 16
    ensures Pvrtc4BppSize(s) >= 64
  {
    ImageSizeExact(s);
    MulMonotone(8, 8, Max(s, 8), Max(s, 8));
    MulMonotone(16, 8, Max(s, 16), Max(s, 8));
  }

  /** A bigger edge never needs fewer bytes, whatever the format. */
  lemma ImageSizeMonotone(format: SurfaceFormat, s: int32, t: int32)
    requires 1 <= s <= t <= MaxExactEdge
    requires CompressedImageSize(format, s).Some?
    ensures CompressedImageSize(format, s).value <= CompressedImageSize(format, t).value
  {
    ImageSizeExact(s);
    ImageSizeExact(t);
    MulMonotone(Max(s, 8), Max(s, 8), Max(t, 8), Max(t, 8));
    MulMonotone(Max(s, 16), Max(s, 8), Max(t, 16), Max(t, 8));
    MulMonotone(Blocks(s), Blocks(s), Blocks(t), Blocks(t));
  }

  /** Past `MaxExactEdge` the int formulas wrap: the 4 bpp product turns negative by edge
      23171 and wraps to 0 at 32768, where the 2 bpp one turns negative. */
  lemma ImageSizeOverflows()
    ensures Pvrtc4BppSize(23171) < 0
    ensures Pvrtc4BppSize(32768) == 0
    ensures Pvrtc2BppSize(32768) < 0
  {
  }

  /** For power-of-two edges past the minimum the formulas are exactly 2 and 4 bits per
      pixel: s*s/4 and s*s/2 bytes. */
  lemma PvrtcPowerOfTwo(s: int32)
    requires IsPow2(s) && 8 <= s <= MaxExactEdge
    ensures Pvrtc2BppSize(s) == s * s / 4
    ensures 16 <= s ==> Pvrtc4BppSize(s) == s * s / 2
  {
    ImageSizeExact(s);
    assert s % 2 == 0;
    EvenEdge(s, s / 2);
  }

  lemma EvenEdge(s: int, t: int)
    requires s == 2 * t
    ensures (s * s * 2 + 7) / 8 == s * s / 4
    ensures (s * s * 4 + 7) / 8 == s * s / 2
  {
    var q := t * t;
    assert s * s == 4 * q;
    assert s * s * 2 + 7 == 8 * q + 7;
    assert s * s * 4 + 7 == 8 * (2 * q) + 7;
  }
}
