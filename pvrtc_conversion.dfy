/** `ConvertToPVRTC`: one call of the native PVRTC codec per face, and the demarshalling of
    its contiguous output into one compressed block per mip level. */
module PvrtcConversion {
  import opened Int32
  import opened TextureContent

  /** The arguments of the native `CompressTexture` call. */
  datatype CodecRequest = CodecRequest(
    pixels: PixelData, height: int32, width: int32, mipLevels: int32,
    premultiplied: bool, fourBpp: bool)

  /** What the native call hands back: one contiguous buffer and a table of per-level sizes. */
  datatype CodecResult = CodecResult(data: seq<byte>, sizes: seq<int32>)

  /** The native codec, a function of its arguments. */
  type Codec = CodecRequest -> CodecResult

  /** Bytes in front of level n: sizes[0] + ... + sizes[n - 1]. */
  function Offset(sizes: seq<int32>, n: nat): (bytes: int)
    requires n <= |sizes|
    ensures (forall k :: 0 <= k < n ==> sizes[k] >= 0) ==> bytes >= 0
  {
    if n == 0 then 0 else Offset(sizes, n - 1) + sizes[n - 1]
  }

  /** The codec's side of the bargain for n levels: n sizes, none negative, together no
      longer than the buffer. */
  predicate Fits(r: CodecResult, n: nat)
  {
    n <= |r.sizes| && (forall k :: 0 <= k < n ==> r.sizes[k] >= 0) && Offset(r.sizes, n) <= |r.data|
  }

  /** The codec keeps that bargain for every request. */
  ghost predicate CodecFits(codec: Codec)
  {
    forall q: CodecRequest :: q.mipLevels >= 0 ==> Fits(codec(q), q.mipLevels as nat)
  }

  lemma {:induction false} OffsetMonotone(sizes: seq<int32>, a: nat, b: nat)
    requires a <= b <= |sizes|
    requires forall k :: 0 <= k < b ==> sizes[k] >= 0
    ensures Offset(sizes, a) <= Offset(sizes, b)
  {
    if a < b {
      OffsetMonotone(sizes, a, b - 1);
    }
  }

  /** A table that fits for n levels fits for any fewer. */
  lemma FitsPrefix(r: CodecResult, m: nat, n: nat)
    requires m <= n && Fits(r, n)
    ensures Fits(r, m)
  {
    OffsetMonotone(r.sizes, m, n);
  }

  /** Level x of the output: the slice of the buffer after the first x levels, `sizes[x]`
      bytes long, at `max(w0 >> x, 1)` by `max(h0 >> x, 1)`. */
  function Level(r: CodecResult, n: nat, x: nat, w0: int32, h0: int32, mode: CompressionMode): BitmapContent
    requires Fits(r, n) && x < n
  {
    OffsetMonotone(r.sizes, x + 1, n);
    Pvrtc(r.data[Offset(r.sizes, x)..Offset(r.sizes, x + 1)], MipExtent(w0, x), MipExtent(h0, x), mode)
  }

  /** The mip chain a face holds after conversion. */
  function Demarshal(r: CodecResult, n: nat, w0: int32, h0: int32, mode: CompressionMode): seq<BitmapContent>
    requires Fits(r, n)
  {
    seq(n, x requires 0 <= x < n => Level(r, n, x, w0, h0, mode))
  }

  /** The chain grows one level at a time. */
  lemma DemarshalSnoc(r: CodecResult, n: nat, w0: int32, h0: int32, mode: CompressionMode)
    requires Fits(r, n + 1)
    ensures Fits(r, n)
    ensures Demarshal(r, n + 1, w0, h0, mode) == Demarshal(r, n, w0, h0, mode) + [Level(r, n + 1, n, w0, h0, mode)]
  {
    FitsPrefix(r, n, n + 1);
  }

  /** The bytes of a level that is not a `Color` bitmap. */
  function RawOf(c: BitmapContent): seq<byte>
  {
    if c.ColorPixels? then [] else c.raw
  }

  function Concat(levels: seq<BitmapContent>): seq<byte>
  {
    if levels == [] then [] else Concat(levels[..|levels| - 1]) + RawOf(levels[|levels| - 1])
  }

  lemma ConcatSnoc(levels: seq<BitmapContent>, last: BitmapContent)
    ensures Concat(levels + [last]) == Concat(levels) + RawOf(last)
  {
    assert (levels + [last])[..|levels|] == levels;
  }

  /** Level x holds exactly the bytes between the offsets of x and x + 1. */
  lemma LevelRaw(r: CodecResult, n: nat, x: nat, w0: int32, h0: int32, mode: CompressionMode)
    requires Fits(r, n) && x < n
    ensures 0 <= Offset(r.sizes, x) <= Offset(r.sizes, x + 1) <= |r.data|
    ensures RawOf(Level(r, n, x, w0, h0, mode)) == r.data[Offset(r.sizes, x)..Offset(r.sizes, x + 1)]
  {
    OffsetMonotone(r.sizes, 0, x);
    OffsetMonotone(r.sizes, x, x + 1);
    OffsetMonotone(r.sizes, x + 1, n);
  }

  lemma SliceSplit(s: seq<byte>, a: nat, b: nat)
    requires a <= b <= |s|
    ensures s[..b] == s[..a] + s[a..b]
  {
  }

  /** Nothing is dropped, duplicated or reordered: the levels laid end to end are exactly
      the first sizes[0] + ... + sizes[n - 1] bytes of the codec's buffer. */
  lemma {:induction false} DemarshalConcat(r: CodecResult, n: nat, w0: int32, h0: int32, mode: CompressionMode)
    requires Fits(r, n)
    ensures Concat(Demarshal(r, n, w0, h0, mode)) == r.data[..Offset(r.sizes, n)]
  {
    if n > 0 {
      DemarshalSnoc(r, n - 1, w0, h0, mode);
      var front := Demarshal(r, n - 1, w0, h0, mode);
      var last := Level(r, n, n - 1, w0, h0, mode);
      ConcatSnoc(front, last);
      DemarshalConcat(r, n - 1, w0, h0, mode);
      LevelRaw(r, n, n - 1, w0, h0, mode);
      SliceSplit(r.data, Offset(r.sizes, n - 1), Offset(r.sizes, n));
    }
  }

  /** The shape of the chain: n compressed levels in the requested mode, level x holding
      `sizes[x]` bytes, level 0 at the source's own dimensions. */
  lemma DemarshalShape(r: CodecResult, n: nat, w0: int32, h0: int32, mode: CompressionMode)
    requires Fits(r, n) && 1 <= w0 && 1 <= h0
    ensures |Demarshal(r, n, w0, h0, mode)| == n
    ensures forall x :: 0 <= x < n ==>
      var level := Demarshal(r, n, w0, h0, mode)[x];
      level.Pvrtc? && level.mode == mode && |level.raw| == r.sizes[x] as int
    ensures n > 0 ==> Demarshal(r, n, w0, h0, mode)[0].width == w0 && Demarshal(r, n, w0, h0, mode)[0].height == h0
  {
    var d := Demarshal(r, n, w0, h0, mode);
    forall x | 0 <= x < n
      ensures d[x].Pvrtc? && d[x].mode == mode && |d[x].raw| == r.sizes[x] as int
    {
      assert d[x] == Level(r, n, x, w0, h0, mode);
      OffsetMonotone(r.sizes, 0, x);
      OffsetMonotone(r.sizes, x + 1, n);
      var lo, hi := Offset(r.sizes, x), Offset(r.sizes, x + 1);
      assert hi == lo + r.sizes[x];
      assert d[x].raw == r.data[lo..hi];
    }
  }

  /** Each level of the chain halves the one before it, rounding down and stopping at 1. */
  lemma DemarshalHalves(r: CodecResult, n: nat, w0: int32, h0: int32, mode: CompressionMode, x: nat)
    requires Fits(r, n) && 1 <= w0 && 1 <= h0 && x + 1 < n && x < 31
    ensures Demarshal(r, n, w0, h0, mode)[x + 1].width == Max(Demarshal(r, n, w0, h0, mode)[x].width / 2, 1)
    ensures Demarshal(r, n, w0, h0, mode)[x + 1].height == Max(Demarshal(r, n, w0, h0, mode)[x].height / 2, 1)
  {
    MipExtentHalves(w0, x);
    MipExtentHalves(h0, x);
  }

  /** The codec call `ConvertToPVRTC` makes for a face whose level 0 is `level0`. */
  function Request(level0: BitmapContent, mipLevels: int32, premultiplied: bool, bpp: CompressionMode): CodecRequest
    requires ValidLevel(level0)
    reads PixelArrays(level0)
  {
    CodecRequest(PixelsOf(level0), Height(level0), Width(level0), mipLevels, premultiplied,
                 bpp == PVRTCFourBitsPerPixel)
  }

  /** The mip chain a face whose level 0 is `level0` holds after conversion. */
  function FaceBlocks(level0: BitmapContent, mipLevels: int32, premultiplied: bool, bpp: CompressionMode, codec: Codec): seq<BitmapContent>
    requires ValidLevel(level0) && CodecFits(codec) && mipLevels >= 0
    reads PixelArrays(level0)
  {
    var q := Request(level0, mipLevels, premultiplied, bpp);
    assert Fits(codec(q), q.mipLevels as nat);
    Demarshal(codec(q), mipLevels as nat, Width(level0), Height(level0), bpp)
  }

  /** `ConvertToPVRTC`: every face's chain is replaced by the blocks the codec makes from
      that face's level 0. A negative level count makes `new int[mipLevels]` throw before the
      first face is touched. */
  method ConvertToPVRTC(source: Texture, mipLevels: int32, premultipliedAlpha: bool, bpp: CompressionMode, codec: Codec)
    returns (ok: bool)
    requires source.Valid() && CodecFits(codec)
    modifies source
    ensures ok <==> mipLevels >= 0
    ensures !ok ==> source.faces == old(source.faces)
    ensures ok ==> |source.faces| == |old(source.faces)|
    ensures ok ==> forall i :: 0 <= i < |source.faces| ==>
      source.faces[i] == FaceBlocks(old(source.faces)[i][0], mipLevels, premultipliedAlpha, bpp, codec)
  {
    if mipLevels < 0 {
      return false;
    }
    ghost var faces0 := source.faces;
    var i := 0;
    while i < |source.faces|
      invariant 0 <= i <= |source.faces| == |faces0|
      invariant forall j :: i <= j < |faces0| ==> source.faces[j] == faces0[j]
      invariant forall j :: 0 <= j < i ==>
        source.faces[j] == FaceBlocks(faces0[j][0], mipLevels, premultipliedAlpha, bpp, codec)
    {
      ConvertFace(source, i, mipLevels, premultipliedAlpha, bpp, codec);
      i := i + 1;
    }
    ok := true;
  }

  /** The body of the face loop: compress face i's level 0, clear the chain, then append
      one block per level while advancing through the codec's buffer. */
  method ConvertFace(source: Texture, i: nat, mipLevels: int32, premultipliedAlpha: bool, bpp: CompressionMode, codec: Codec)
    requires i < |source.faces| && |source.faces[i]| >= 1 && ValidLevel(source.faces[i][0])
    requires CodecFits(codec) && mipLevels >= 0
    modifies source
    ensures source.faces == old(source.faces)[i := FaceBlocks(old(source.faces)[i][0], mipLevels, premultipliedAlpha, bpp, codec)]
  {
    var level0 := source.faces[i][0];
    var request := Request(level0, mipLevels, premultipliedAlpha, bpp);
    var result := codec(request);
    assert Fits(result, mipLevels as nat);
    var dataSizes := result.sizes[..mipLevels];
    var sourceWidth := Width(level0);
    var sourceHeight := Height(level0);
    source.faces := source.faces[i := []];
    var ptr: int := 0;
    var x := 0;
    assert |Demarshal(result, 0, sourceWidth, sourceHeight, bpp)| == 0;
    while x < mipLevels
      invariant 0 <= x <= mipLevels
      invariant Fits(result, x as nat)
      invariant ptr == Offset(result.sizes, x as nat)
      invariant source.faces == old(source.faces)[i := Demarshal(result, x as nat, sourceWidth, sourceHeight, bpp)]
    {
      FitsPrefix(result, x as nat + 1, mipLevels as nat);
      DemarshalSnoc(result, x as nat, sourceWidth, sourceHeight, bpp);
      OffsetMonotone(result.sizes, 0, x as nat);
      var levelSize := dataSizes[x];
      var levelData := result.data[ptr..ptr + levelSize];
      var levelWidth := MipExtent(sourceWidth, x);
      var levelHeight := MipExtent(sourceHeight, x);
      source.faces := source.faces[i := source.faces[i] + [Pvrtc(levelData, levelWidth, levelHeight, bpp)]];
      ptr := ptr + levelSize;
      x := x + 1;
    }
  }
}
