/** The content-pipeline objects the texture processor works on: pixel bitmaps, the
    compressed level blocks it produces, and the texture's faces with their mip chains. */
module TextureContent {
  import opened Int32

  /** An 8-bit-per-channel RGBA pixel (`Color`). */
  datatype Color = Color(r: byte, g: byte, b: byte, a: byte)

  /** `MGCompressionMode`. */
  datatype CompressionMode = NoCompression | PVRTCTwoBitsPerPixel | PVRTCFourBitsPerPixel

  /** A bitmap edge: content bitmaps are never empty. */
  type Extent = x: int32 | 1 <= x witness 1

  /** `PixelBitmapContent<Color>`: a grid of pixels that is rewritten in place. Row x,
      column y is `pixels[x, y]`. */
  class ColorBitmap {
    const width: Extent
    const height: Extent
    const pixels: array2<Color>

    predicate Valid()
    {
      pixels.Length0 == height as int && pixels.Length1 == width as int
    }

    /** A bitmap whose pixel at (x, y) is `fill(x, y)`. */
    constructor (width: Extent, height: Extent, fill: (nat, nat) -> Color)
      ensures Valid() && this.width == width && this.height == height
      ensures fresh(pixels)
      ensures forall x, y :: 0 <= x < height && 0 <= y < width ==> pixels[x, y] == fill(x, y)
    {
      this.width := width;
      this.height := height;
      pixels := new Color[height, width]((x: nat, y: nat) => fill(x, y));
    }

    /** The pixels, row by row. */
    function Rows(): (rows: seq<seq<Color>>)
      requires Valid()
      reads pixels
      ensures |rows| == height as int
    {
      seq(height, x requires 0 <= x < height reads pixels =>
        seq(width, y requires 0 <= y < width reads pixels => pixels[x, y]))
    }
  }

  /** One mip level of one face. */
  datatype BitmapContent =
    | ColorPixels(bitmap: ColorBitmap)
      /** `PixelBitmapContent<Vector4>`: floating-point pixels, kept as their bytes. */
    | Vector4Pixels(width: Extent, height: Extent, raw: seq<byte>)
      /** Any other pixel type. */
    | OtherPixels(width: Extent, height: Extent, raw: seq<byte>)
      /** `MGBitmapContent`: one level of PVRTC-compressed data. */
    | Pvrtc(raw: seq<byte>, width: Extent, height: Extent, mode: CompressionMode)

  function Width(c: BitmapContent): Extent
  {
    if c.ColorPixels? then c.bitmap.width else c.width
  }

  function Height(c: BitmapContent): Extent
  {
    if c.ColorPixels? then c.bitmap.height else c.height
  }

  /** What `GetPixelData` hands out: the pixels of a `Color` bitmap, the bytes of the rest. */
  datatype PixelData = ColorRows(rows: seq<seq<Color>>) | Bytes(bytes: seq<byte>)

  /** The arrays a level's pixel data lives in. */
  function PixelArrays(c: BitmapContent): set<array2<Color>>
  {
    if c.ColorPixels? then {c.bitmap.pixels} else {}
  }

  predicate ValidLevel(c: BitmapContent)
  {
    c.ColorPixels? ==> c.bitmap.Valid()
  }

  function PixelsOf(c: BitmapContent): PixelData
    requires ValidLevel(c)
    reads PixelArrays(c)
  {
    if c.ColorPixels? then ColorRows(c.bitmap.Rows()) else Bytes(c.raw)
  }

  /** `TextureContent`: its faces (one for a 2D texture, six for a cube), each a mip chain
      whose entry 0 is the full-resolution level. */
  class Texture {
    var faces: seq<seq<BitmapContent>>

    ghost predicate Valid()
      reads this
    {
      |faces| >= 1
      && (forall i :: 0 <= i < |faces| ==> |faces[i]| >= 1)
      && (forall i, j :: 0 <= i < |faces| && 0 <= j < |faces[i]| ==> ValidLevel(faces[i][j]))
    }

    constructor (faces: seq<seq<BitmapContent>>)
      ensures this.faces == faces
    {
      this.faces := faces;
    }

    /** Face 0, level 0: the only level the processor resizes or premultiplies. */
    function Level0(): BitmapContent
      requires Valid()
      reads this
    {
      faces[0][0]
    }

    /** The pixel arrays of face 0, level 0. */
    function Level0Arrays(): set<array2<Color>>
      requires Valid()
      reads this
    {
      PixelArrays(faces[0][0])
    }
  }
}
