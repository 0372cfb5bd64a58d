# MonoGame cube textures and PVRTC texture processing, modelled in Dafny

This project models three pieces of MonoGame's texture path:

- The content-pipeline `MGTextureProcessor`. On an iOS build that asks for DXT output, it makes face 0,
  level 0 of a texture a power-of-two square. If the texture is not one already, it is resampled onto a
  square of edge `min(Pow2roundup(max(w, h)), 1024)`. The processor then counts the mip levels and
  premultiplies face 0 when asked to. Finally it hands every face to the native PVRTC codec and unpacks
  the codec's contiguous buffer into one compressed block per mip level (`ConvertToPVRTC`). On any other
  build, or for any other output format, the standard texture processor runs.
- The runtime `TextureCube`:
  - Its constructor reserves the six faces on the device. For a compressed GL format it computes each
    face's byte size with the PVRTC/DXT formulas. It then counts the levels.
  - `SetData` uploads a whole level, or a rectangle, into one (face, level) slot.
  - `GetGLCubeFace` maps faces to GL targets.
- The `TextureCubeReader`. It reads a header of three little-endian ints (surface format, edge, level
  count). It substitutes the platform's replacement format, builds the texture, and then reads
  `6 x levels` length-prefixed records, face by face and level by level, uploading each one as it is read.

C#'s `int` is modelled exactly:
- Arithmetic wraps (`Int32.Wrap`).
- Division truncates (`Int32.TruncDiv`).
- `>>` is an arithmetic shift whose count is masked to 5 bits (`Int32.Shr`).
- `|` and `&` work on the two's-complement pattern (`Int32.Or32`, `Int32.And32`).

The device is an abstract store: for each (target, level) slot, the list of calls made into it. The
native codec, the bicubic resampler and `Color.FromNonPremultiplied` are function parameters. The GL
format query `GetGLFormat` is reduced to a parameter saying whether the format is a compressed GL format.
The content stream is an in-memory byte sequence with a position.

The model follows the code as written:
- `isPowerOfTwo` accepts `int.MinValue`.
- `Pow2roundup` returns 0 for negative input and wraps to `int.MinValue` above 2^30.
- A repaired edge below 1 is the failure of `new Bitmap`.
- After a repair `invalidBounds` is reset, so the "must be a square, power of two" warning can never be
  logged.
- `SetData` passes `data.Length - startIndex * sizeof(T)` as the compressed byte count. That subtracts a
  byte offset from an element count, and the model keeps it. For the reader's `byte[]` uploads from
  index 0 it is exactly the array length (`TextureCubes.UploadWholeByteArray`).
- A rectangle given to `SetData` is used as it is, without clamping.
- `ReadBytes` returns fewer bytes than asked for when the stream ends, as `BinaryReader.ReadBytes` does.

## Model

| member | source | states |
|---|---|---|
| Int32.Wrap | MonoGame.ContentPipeline/ContentProcessors/Processors/MGTextureProcessor.cs:235-241 | unchecked int arithmetic leaves every in-range result alone and otherwise reduces it into the 32-bit range |
| Int32.TruncDiv | MonoGame.Framework/Graphics/TextureCube.cs:89-100 | C# `/` on int truncates toward zero: the remainder `a - q * b` lies in [0, b) for a nonnegative dividend and in (-b, 0] for a negative one |
| Int32.Shr | MonoGame.Framework/Graphics/TextureCube.cs:170-171 | `v >> k` of a nonnegative int is nonnegative and at most `v` |
| Int32.UnsignedDecrement | MonoGame.ContentPipeline/ContentProcessors/Processors/MGTextureProcessor.cs:228 | `x - 1` of a nonzero int decrements its 32-bit pattern by one, including the wrap of `int.MinValue` |
| Int32.MipExtent | MonoGame.Framework/Graphics/TextureCube.cs:170-171 | `max(d >> level, 1)` is at least 1 and, for a positive edge, at most the edge |
| Int32.MipExtentHalves | MonoGame.ContentPipeline/ContentProcessors/Processors/MGTextureProcessor.cs:216-217 | each mip level's edge is the previous one halved, rounding down and never below 1 |
| Int32.MipExtentReachesOne | MonoGame.Framework/Graphics/TextureCube.cs:170-171 | the edge of level `level` is 1 exactly when `level >= floor(log2 d)` |
| Int32.Or32 | MonoGame.ContentPipeline/ContentProcessors/Processors/MGTextureProcessor.cs:236-240 | definition: C# `a \| b` on int, the OR of the two's-complement patterns (the smearing lemmas below are about it) |
| Int32.And32 | MonoGame.ContentPipeline/ContentProcessors/Processors/MGTextureProcessor.cs:228 | definition: C# `a & b` on int, the AND of the two's-complement patterns (`PowerOfTwoTest` is about it) |
| PowerOfTwo.IsPowerOfTwo | MonoGame.ContentPipeline/ContentProcessors/Processors/MGTextureProcessor.cs:226-229 | `isPowerOfTwo(x)` holds iff x is a positive power of two or `int.MinValue` |
| PowerOfTwo.PowerOfTwoTest | MonoGame.ContentPipeline/ContentProcessors/Processors/MGTextureProcessor.cs:226-229 | the bit test `x != 0 && (x & (x - 1)) == 0` on 32-bit patterns holds iff x is a positive power of two or `int.MinValue` |
| PowerOfTwo.RoundUpPow2 | MonoGame.ContentPipeline/ContentProcessors/Processors/MGTextureProcessor.cs:231-242 | 0 for x <= 0; for 0 < x <= 2^30 a power of two in [x, 2x); `int.MinValue` above 2^30 |
| PowerOfTwo.RoundUpPow2Least | MonoGame.ContentPipeline/ContentProcessors/Processors/MGTextureProcessor.cs:231-242 | no power of two that is at least x is smaller than the round-up |
| PowerOfTwo.Pow2Roundup | MonoGame.ContentPipeline/ContentProcessors/Processors/MGTextureProcessor.cs:231-242 | the decrement, the five `x \|= x >> s` steps (s = 1, 2, 4, 8, 16) and the increment compute exactly the round-up above |
| PowerOfTwo.SmearStart | MonoGame.ContentPipeline/ContentProcessors/Processors/MGTextureProcessor.cs:235 | after `--x` the value is -1 or an L-bit value whose top bit is set |
| PowerOfTwo.SmearStep | MonoGame.ContentPipeline/ContentProcessors/Processors/MGTextureProcessor.cs:236-240 | one `x \|= x >> s` step with s at most the run of leading ones grows that run by s, and keeps -1 as -1 and nothing else |
| PowerOfTwo.SmearStepNonnegative | MonoGame.ContentPipeline/ContentProcessors/Processors/MGTextureProcessor.cs:236-240 | on a nonnegative L-bit value the step stays nonnegative and L bits wide, and its top min(k + s, L) bits are set |
| PowerOfTwo.SmearMinusOne | MonoGame.ContentPipeline/ContentProcessors/Processors/MGTextureProcessor.cs:233-240 | the decremented 0 is -1, and every smearing step leaves -1 alone |
| PowerOfTwo.SmearsFromSmeared | MonoGame.ContentPipeline/ContentProcessors/Processors/MGTextureProcessor.cs:236-240 | the remaining steps from shift k on set all L bits below the leading one |
| PowerOfTwo.SmearFinish | MonoGame.ContentPipeline/ContentProcessors/Processors/MGTextureProcessor.cs:241 | the fully smeared value plus one (wrapping) is the round-up of the original x |
| PowerOfTwo.SmearFinishSmall | MonoGame.ContentPipeline/ContentProcessors/Processors/MGTextureProcessor.cs:241 | for 0 < x <= 2^30 the round-up is 2^BitLen(x - 1), at most 2^30 |
| PowerOfTwo.SmearFinishLarge | MonoGame.ContentPipeline/ContentProcessors/Processors/MGTextureProcessor.cs:241 | above 2^30 all 31 bits are set, and the increment wraps to `int.MinValue` |
| SurfaceFormats.Substitute | MonoGame.Framework/Content/ContentReaders/TextureCubeReader.cs:16-40 | definition: the reader's per-platform format switch (the three lemmas below characterise it) |
| SurfaceFormats.SubstituteTable | MonoGame.Framework/Content/ContentReaders/TextureCubeReader.cs:16-40 | the reader changes a format exactly when it is in the platform's table, and never into a format that is itself in the table |
| SurfaceFormats.SubstituteIdempotent | MonoGame.Framework/Content/ContentReaders/TextureCubeReader.cs:16-40 | substituting twice is substituting once |
| SurfaceFormats.SubstituteEntries | MonoGame.Framework/Content/ContentReaders/TextureCubeReader.cs:16-40 | NormalizedByte4 becomes Color everywhere; iOS maps DXT3/DXT5 to RGBA PVRTC 2/4 bpp and keeps DXT1; Android maps every DXT format to Color; other platforms keep them |
| SurfaceFormats.Pvrtc2BppSize | MonoGame.Framework/Graphics/TextureCube.cs:89 | definition: the 2 bpp size expression in wrapping int arithmetic with truncating division (`ImageSizeExact` and the lemmas after it are about it) |
| SurfaceFormats.Pvrtc4BppSize | MonoGame.Framework/Graphics/TextureCube.cs:93 | definition: the 4 bpp size expression in wrapping int arithmetic with truncating division |
| SurfaceFormats.Blocks | MonoGame.Framework/Graphics/TextureCube.cs:96 | definition: `(size + 3) / 4`, the 4-pixel blocks along an edge |
| SurfaceFormats.DxtSize | MonoGame.Framework/Graphics/TextureCube.cs:95-100 | definition: blocks x blocks x bytes per block, in wrapping int arithmetic |
| SurfaceFormats.CompressedImageSize | MonoGame.Framework/Graphics/TextureCube.cs:84-104 | the switch has a size exactly for the four PVRTC and three DXT formats (otherwise `NotImplementedException`) |
| SurfaceFormats.ImageSizeExact | MonoGame.Framework/Graphics/TextureCube.cs:89-100 | up to edge 16384 none of the int size formulas overflows, and each equals its mathematical value |
| SurfaceFormats.DxtDoubles | MonoGame.Framework/Graphics/TextureCube.cs:95-100 | up to edge 16384, DXT3 and DXT5 faces take the same bytes, twice those of DXT1 |
| SurfaceFormats.PvrtcMinimum | MonoGame.Framework/Graphics/TextureCube.cs:87-94 | up to edge 16384, a PVRTC face never takes fewer bytes than the 8x8 (2 bpp) and 16x8 (4 bpp) minimum image |
| SurfaceFormats.ImageSizeMonotone | MonoGame.Framework/Graphics/TextureCube.cs:84-104 | for every format and edges up to 16384, a larger edge never needs fewer bytes |
| SurfaceFormats.PvrtcPowerOfTwo | MonoGame.Framework/Graphics/TextureCube.cs:87-94 | for power-of-two edges past the minimum and up to 16384, the formulas are exactly 2 and 4 bits per pixel |
| SurfaceFormats.ImageSizeOverflows | MonoGame.Framework/Graphics/TextureCube.cs:89-94 | past that range the int formulas wrap: the 4 bpp size is negative at edge 23171 and 0 at 32768, where the 2 bpp size is negative |
| TextureContent.ColorBitmap.constructor | MonoGame.ContentPipeline/ContentProcessors/Processors/MGTextureProcessor.cs:100-102 | a new `PixelBitmapContent<Color>` of the given size whose pixels are the given ones |
| TextureContent.ColorBitmap.Rows | MonoGame.ContentPipeline/ContentProcessors/Processors/MGTextureProcessor.cs:146-148 | `GetRow`: a bitmap has one row per unit of height |
| TextureCubes.GetGLCubeFace | MonoGame.Framework/Graphics/TextureCube.cs:217-227 | definition: the face-to-target switch, no target for other values (`CubeFaceTargets` and `CubeFacesDistinct` are about it) |
| TextureCubes.CubeFaceTargets | MonoGame.Framework/Graphics/TextureCube.cs:217-227 | exactly faces 0..5 have a GL target, and face f's is `TEXTURE_CUBE_MAP_POSITIVE_X + f`; anything else is an `ArgumentException` |
| TextureCubes.CubeFacesDistinct | MonoGame.Framework/Graphics/TextureCube.cs:217-227 | different faces map to different targets |
| TextureCubes.TextureCube.Empty | MonoGame.Framework/Graphics/TextureCube.cs:48-52 | a new texture starts with its size, one level and an empty device store |
| TextureCubes.TextureCube.Create | MonoGame.Framework/Graphics/TextureCube.cs:48-134 | the constructor fails with `NotImplemented` exactly for a compressed format without a size formula; otherwise its level count is `LevelCount` and its store holds the six face reservations |
| TextureCubes.AllocatedFacesSlots | MonoGame.Framework/Graphics/TextureCube.cs:79-116 | after reserving n faces, the reserved slots are exactly level 0 of the first n targets, each holding just the reservation |
| TextureCubes.AllocatedSixFaces | MonoGame.Framework/Graphics/TextureCube.cs:79-116 | after construction every face holds exactly one size x size reservation at level 0, and no other slot is touched |
| TextureCubes.LevelCount | MonoGame.Framework/Graphics/TextureCube.cs:118-132 | the level count is between 1 and 31 |
| TextureCubes.LevelCountBound | MonoGame.Framework/Graphics/TextureCube.cs:126-131 | a positive int edge has floor(log2) at most 30, so the halving loop counts at most 31 levels |
| TextureCubes.HalveLog | MonoGame.Framework/Graphics/TextureCube.cs:126-131 | each `v /= 2` of the loop lowers floor(log2 v) by one |
| TextureCubes.UploadRegion | MonoGame.Framework/Graphics/TextureCube.cs:168-179 | definition: the level's `max(1, size >> level)` square at the origin, or the given rectangle (the two lemmas below are about it) |
| TextureCubes.UploadCall | MonoGame.Framework/Graphics/TextureCube.cs:163-209 | definition: the device call `SetData` makes, with its region, data offset and compressed byte count (`UploadWholeByteArray` and `SetData` are stated with it) |
| TextureCubes.UploadRegionFollowsChain | MonoGame.Framework/Graphics/TextureCube.cs:168-171 | without a rectangle, level 0 is the whole face and each level halves the one before; a 1x1 region is exactly the last level of a mipmapped cube |
| TextureCubes.UploadRegionVerbatim | MonoGame.Framework/Graphics/TextureCube.cs:173-179 | a given rectangle is used unchanged, neither clamped nor checked |
| TextureCubes.UploadWholeByteArray | MonoGame.Framework/Graphics/TextureCube.cs:189-209 | a byte array uploaded from index 0 passes its whole length as the compressed byte count, and starts at its first byte |
| TextureCubes.TextureCube.SetData | MonoGame.Framework/Graphics/TextureCube.cs:157-214 | null data fails with `ArgumentNull`, an unknown face with `InvalidFace`, and the device stays unchanged; otherwise exactly one call is appended, to the slot of the face's target at `level` |
| PvrtcConversion.Offset | MonoGame.ContentPipeline/ContentProcessors/Processors/MGTextureProcessor.cs:221 | the codec buffer offset of a level is nonnegative when the sizes before it are |
| PvrtcConversion.OffsetMonotone | MonoGame.ContentPipeline/ContentProcessors/Processors/MGTextureProcessor.cs:221 | advancing through the buffer never moves back |
| PvrtcConversion.FitsPrefix | MonoGame.ContentPipeline/ContentProcessors/Processors/MGTextureProcessor.cs:198-214 | a size table that fits the buffer for n levels fits for fewer |
| PvrtcConversion.DemarshalSnoc | MonoGame.ContentPipeline/ContentProcessors/Processors/MGTextureProcessor.cs:209-222 | the chain grows one level per loop iteration, appended at the end |
| PvrtcConversion.LevelRaw | MonoGame.ContentPipeline/ContentProcessors/Processors/MGTextureProcessor.cs:211-214 | level x holds exactly the bytes between the offsets of level x and level x + 1 |
| PvrtcConversion.DemarshalConcat | MonoGame.ContentPipeline/ContentProcessors/Processors/MGTextureProcessor.cs:209-222 | the levels laid end to end are exactly the first sizes[0] + ... + sizes[n-1] bytes of the codec buffer: nothing dropped, duplicated or reordered |
| PvrtcConversion.DemarshalShape | MonoGame.ContentPipeline/ContentProcessors/Processors/MGTextureProcessor.cs:207-222 | a face ends with mipLevels compressed levels in the requested mode; level x holds sizes[x] bytes and level 0 has the source's dimensions |
| PvrtcConversion.DemarshalHalves | MonoGame.ContentPipeline/ContentProcessors/Processors/MGTextureProcessor.cs:216-217 | each level's width and height are the previous level's halved, rounding down and never below 1 |
| PvrtcConversion.ConvertToPVRTC | MonoGame.ContentPipeline/ContentProcessors/Processors/MGTextureProcessor.cs:183-224 | every face's chain becomes the codec's blocks for that face's level 0, and the face count is kept; a negative level count fails before any face is touched |
| PvrtcConversion.ConvertFace | MonoGame.ContentPipeline/ContentProcessors/Processors/MGTextureProcessor.cs:185-222 | one face's chain is replaced by its blocks, and no other face changes |
| TextureProcessor.NeedsRepair | MonoGame.ContentPipeline/ContentProcessors/Processors/MGTextureProcessor.cs:54 | definition: `invalidBounds`, not a square or an edge failing `isPowerOfTwo` (`NeedsRepairExactly` is about it) |
| TextureProcessor.RepairedSize | MonoGame.ContentPipeline/ContentProcessors/Processors/MGTextureProcessor.cs:75 | definition: `min(Pow2roundup(max(width, height)), 1024)` (`RepairedSizeShape` and `RepairedSizeLeast` are about it) |
| TextureProcessor.NeedsRepairExactly | MonoGame.ContentPipeline/ContentProcessors/Processors/MGTextureProcessor.cs:54 | for real bitmap edges, `invalidBounds` is false exactly for power-of-two squares |
| TextureProcessor.RepairedSizeShape | MonoGame.ContentPipeline/ContentProcessors/Processors/MGTextureProcessor.cs:75 | the repaired edge is a power of two of at most 1024 that passes the check; it is in [m, 2m) for m = max(w, h) <= 1024 and 1024 above that; it is below 1 when m > 2^30 |
| TextureProcessor.RepairedSizeLeast | MonoGame.ContentPipeline/ContentProcessors/Processors/MGTextureProcessor.cs:75 | no power of two that covers the texture within the cap is smaller than the repaired edge |
| TextureProcessor.RepairExample | MonoGame.ContentPipeline/ContentProcessors/Processors/MGTextureProcessor.cs:54-75 | a 100x50 texture is repaired to 128x128, and a 128x128 one needs no repair |
| TextureProcessor.Resampled | MonoGame.ContentPipeline/ContentProcessors/Processors/MGTextureProcessor.cs:77-102 | the resampled level 0 is newSize rows of newSize pixels |
| TextureProcessor.MipLevelCount | MonoGame.ContentPipeline/ContentProcessors/Processors/MGTextureProcessor.cs:130-139 | a full chain has between 1 and 31 levels |
| TextureProcessor.CountMipLevels | MonoGame.ContentPipeline/ContentProcessors/Processors/MGTextureProcessor.cs:131-139 | the halving loop counts floor(log2(max(w, h))) + 1 levels |
| TextureProcessor.HalveBoth | MonoGame.ContentPipeline/ContentProcessors/Processors/MGTextureProcessor.cs:133-138 | each iteration lowers floor(log2) of the larger edge by exactly one |
| TextureProcessor.PremultiplyRows | MonoGame.ContentPipeline/ContentProcessors/Processors/MGTextureProcessor.cs:146-154 | premultiplying keeps the number of rows and the length of each |
| TextureProcessor.PremultiplyKeeps | MonoGame.ContentPipeline/ContentProcessors/Processors/MGTextureProcessor.cs:151-152 | opaque pixels are kept, and only pixels with alpha below 0xff can change |
| TextureProcessor.PremultiplyOpaque | MonoGame.ContentPipeline/ContentProcessors/Processors/MGTextureProcessor.cs:151-152 | on a fully opaque bitmap the step changes nothing |
| TextureProcessor.PremultiplyColor | MonoGame.ContentPipeline/ContentProcessors/Processors/MGTextureProcessor.cs:143-155 | the in-place loops leave the bitmap's rows equal to the premultiplied old rows |
| TextureProcessor.Repair | MonoGame.ContentPipeline/ContentProcessors/Processors/MGTextureProcessor.cs:58-113 | the new edge is `RepairedSize`; when it is at least 1, a fresh newSize x newSize Color bitmap holding the resampled pixels replaces face 0, level 0 and nothing else; otherwise nothing changes |
| TextureProcessor.CheckBounds | MonoGame.ContentPipeline/ContentProcessors/Processors/MGTextureProcessor.cs:50-113 | a power-of-two square passes unchanged with no log; anything else is repaired and logs one "resized" entry; either way level 0 then passes the check; the repair fails exactly when the new edge is below 1 |
| TextureProcessor.MGTextureProcessor.constructor | MonoGame.ContentPipeline/ContentProcessors/Processors/MGTextureProcessor.cs:27 | the compression mode defaults to PVRTC 4 bpp |
| TextureProcessor.MGTextureProcessor.Process | MonoGame.ContentPipeline/ContentProcessors/Processors/MGTextureProcessor.cs:38-181 | outside iOS or without DXT output it hands the input to `base.Process` unchanged, with no log and the output format kept; otherwise it repairs (only reading the replaced level's pixels), fails with `InvalidBitmapSize` leaving the input and output format as they were when the repaired edge is below 1, falls back to Color output with NoCompression, fails with `NotSupported` when premultiplying pixels that are neither Color nor Vector4, and otherwise premultiplies face 0 and replaces every face by the codec's chain with 1 or `MipLevelCount` levels; face 0, level 0's pixels are the original (or resampled) ones, premultiplied only on the compressed path with premultiply on; the skip-compression warning is never logged |
| TextureProcessor.MGTextureProcessor.ProcessForCompression | MonoGame.ContentPipeline/ContentProcessors/Processors/MGTextureProcessor.cs:50-180 | the same outcomes once compression has been requested; level 0's pixels are the original (or, after a repair, resampled) ones, premultiplied exactly when the texture is compressed with premultiply on and untouched otherwise; a repair leaves the replaced level's pixels as they were |
| TextureProcessor.MGTextureProcessor.FallBackOrCompress | MonoGame.ContentPipeline/ContentProcessors/Processors/MGTextureProcessor.cs:115-180 | with bounds already valid: NoCompression switches the output format to Color and delegates without logging; otherwise the faces become the codec's chains, or `NotSupported` leaves them unchanged |
| TextureProcessor.CompressFaces | MonoGame.ContentPipeline/ContentProcessors/Processors/MGTextureProcessor.cs:130-180 | counts the levels, premultiplies Color pixels in place (Vector4 accepted, anything else `NotSupported` before any face changes), and converts every face |
| TextureCubeReader.EncodeInt32 | MonoGame.Framework/Content/ContentReaders/TextureCubeReader.cs:12-14 | an int is written as four bytes |
| TextureCubeReader.DecodeEncodeInt32 | MonoGame.Framework/Content/ContentReaders/TextureCubeReader.cs:12-14 | a written int reads back as itself (little-endian, two's complement) |
| TextureCubeReader.ContentReader.ReadInt32 | MonoGame.Framework/Content/ContentReaders/TextureCubeReader.cs:12-14 | reads the int at the position and advances by 4, or fails at end of stream |
| TextureCubeReader.ContentReader.ReadBytes | MonoGame.Framework/Content/ContentReaders/TextureCubeReader.cs:46 | reads up to `count` bytes and advances past them; a negative count is an error |
| TextureCubeReader.ParseHeader | MonoGame.Framework/Content/ContentReaders/TextureCubeReader.cs:12-14 | the header parses exactly when at least 12 bytes remain, and ends 12 bytes later |
| TextureCubeReader.ParseRecord | MonoGame.Framework/Content/ContentReaders/TextureCubeReader.cs:45-46 | a record takes its 4-byte length plus the bytes it returns, inside the stream |
| TextureCubeReader.ParseRecords | MonoGame.Framework/Content/ContentReaders/TextureCubeReader.cs:43-49 | a successful run of n records returns n of them and ends within the stream |
| TextureCubeReader.ParseNextRecord | MonoGame.Framework/Content/ContentReaders/TextureCubeReader.cs:43-49 | the run of n - 1 records followed by one more returns n of them |
| TextureCubeReader.ParseRecordsConsumes | MonoGame.Framework/Content/ContentReaders/TextureCubeReader.cs:43-49 | a run consumes exactly 4 + length bytes per record it returns |
| TextureCubeReader.ParseRecordsFailureStays | MonoGame.Framework/Content/ContentReaders/TextureCubeReader.cs:43-49 | once a record fails, every longer run fails with the same error |
| TextureCubeReader.EncodeRecord | MonoGame.Framework/Content/ContentReaders/TextureCubeReader.cs:45-46 | a written record takes 4 bytes more than its data |
| TextureCubeReader.EncodeRecords | MonoGame.Framework/Content/ContentReaders/TextureCubeReader.cs:43-49 | written records take exactly the bytes `RecordBytes` counts |
| TextureCubeReader.Encode | MonoGame.Framework/Content/ContentReaders/TextureCubeReader.cs:12-49 | a written cube takes 12 header bytes plus its records |
| TextureCubeReader.ReadInt32Encoded | MonoGame.Framework/Content/ContentReaders/TextureCubeReader.cs:45 | a written int at a position reads back as itself, 4 bytes on |
| TextureCubeReader.ParseRecordsStep | MonoGame.Framework/Content/ContentReaders/TextureCubeReader.cs:45-46 | one more written record after a parsed run extends the run by exactly that record |
| TextureCubeReader.ParseEncodedRecords | MonoGame.Framework/Content/ContentReaders/TextureCubeReader.cs:43-49 | written records read back as themselves, ending right after them |
| TextureCubeReader.ParseEncodedHeader | MonoGame.Framework/Content/ContentReaders/TextureCubeReader.cs:12-14 | a written header reads back as itself |
| TextureCubeReader.ParseEncoded | MonoGame.Framework/Content/ContentReaders/TextureCubeReader.cs:12-49 | a written cube stream reads back as its header and its 6 x levels records |
| TextureCubeReader.FaceStartIsProduct | MonoGame.Framework/Content/ContentReaders/TextureCubeReader.cs:43-44 | face f's records start at f * levels |
| TextureCubeReader.FaceStartMonotone | MonoGame.Framework/Content/ContentReaders/TextureCubeReader.cs:43-44 | later faces start later |
| TextureCubeReader.Address | MonoGame.Framework/Content/ContentReaders/TextureCubeReader.cs:43-44 | the level a record goes to is below the level count |
| TextureCubeReader.AddressOf | MonoGame.Framework/Content/ContentReaders/TextureCubeReader.cs:43-47 | record k goes to face f, level i iff i < levels and k = f * levels + i, so no two records share a slot |
| TextureCubeReader.RecordIndex | MonoGame.Framework/Content/ContentReaders/TextureCubeReader.cs:43-44 | face f, level i is record f * levels + i, within the 6 x levels records |
| TextureCubeReader.ApplyRecords | MonoGame.Framework/Content/ContentReaders/TextureCubeReader.cs:43-49 | definition: the device after each record is uploaded whole into its slot, in stream order (the reference `ReadFaces` is proved against; the lemmas below are about it) |
| TextureCubeReader.ApplyRecordsSnoc | MonoGame.Framework/Content/ContentReaders/TextureCubeReader.cs:47 | uploading one more record appends its call to its own slot only |
| TextureCubeReader.UploadedLast | MonoGame.Framework/Content/ContentReaders/TextureCubeReader.cs:47 | the last record adds to a slot's uploads only when it is that slot's record |
| TextureCubeReader.ApplyRecordsSlot | MonoGame.Framework/Content/ContentReaders/TextureCubeReader.cs:43-49 | after the uploads every slot holds what it held, plus the one record addressed to it |
| TextureCubeReader.CubeFaceLevel | MonoGame.Framework/Content/ContentReaders/TextureCubeReader.cs:42-49 | each face's level holds its reservation (level 0 only) followed by exactly record face * levels + level, uploaded whole |
| TextureCubeReader.CubeOtherSlots | MonoGame.Framework/Content/ContentReaders/TextureCubeReader.cs:42-49 | no slot outside the six faces' levels receives any call |
| TextureCubeReader.BuildCube | MonoGame.Framework/Content/ContentReaders/TextureCubeReader.cs:42-49 | definition: the texture a header and its records describe, the six reservations followed by every record's upload |
| TextureCubeReader.ReadCube | MonoGame.Framework/Content/ContentReaders/TextureCubeReader.cs:10-51 | definition: header, substituted format, construction, then the records, or the first error (the reference `Read` is proved against) |
| TextureCubeReader.ReadEncodedCube | MonoGame.Framework/Content/ContentReaders/TextureCubeReader.cs:10-51 | a written cube reads back whole: the stream is consumed to its end, and the texture is the one its header and records describe |
| TextureCubeReader.ParseRecordsNext | MonoGame.Framework/Content/ContentReaders/TextureCubeReader.cs:45-46 | one more record after a run of n gives the run of n + 1, or that record's error |
| TextureCubeReader.ReadRecord | MonoGame.Framework/Content/ContentReaders/TextureCubeReader.cs:45-46 | the loop body's two reads yield exactly the parsed record and its end position, or its error |
| TextureCubeReader.ProgressFails | MonoGame.Framework/Content/ContentReaders/TextureCubeReader.cs:43-49 | a record that fails after k parsed ones makes the whole run fail with its error |
| TextureCubeReader.ProgressStep | MonoGame.Framework/Content/ContentReaders/TextureCubeReader.cs:45-47 | a parsed record uploaded into the loops' current face and level extends the reader's progress by one record |
| TextureCubeReader.ReadLevel | MonoGame.Framework/Content/ContentReaders/TextureCubeReader.cs:44-48 | one inner iteration reads and uploads the record of (face, level), or fails exactly as the whole run fails |
| TextureCubeReader.ReadFace | MonoGame.Framework/Content/ContentReaders/TextureCubeReader.cs:44-48 | the inner loop reads and uploads a face's `levels` records, or fails exactly as the whole run fails |
| TextureCubeReader.ReadFaces | MonoGame.Framework/Content/ContentReaders/TextureCubeReader.cs:43-49 | the nested loops fail exactly when the 6 x levels records do not parse, with their error; otherwise the reader ends after them and every record is uploaded into its slot |
| TextureCubeReader.Read | MonoGame.Framework/Content/ContentReaders/TextureCubeReader.cs:10-51 | `Read` fails exactly when `ReadCube` does, with its error; otherwise it returns a fresh texture whose size, level count and device state are those `ReadCube` gives, with the reader just after the cube |

## Left out

- The native PVRTC codec (`CompressTexture`) is a function parameter. It is required to return a size table and buffer that fit each other. Pinned pointers and `Marshal.Copy` are reduced to slicing that buffer.
- The System.Drawing bicubic resampling is a function parameter. The model does not capture the stride and pixel layout of `LockBits`, the byte round trip through `GetPixelData`/`SetPixelData`, or the `Graphics` disposal.
- `Color.FromNonPremultiplied` is a function parameter. The premultiply of `Vector4` pixels is floating-point arithmetic, so the model accepts Vector4 levels but leaves their bytes unchanged.
- The standard `TextureProcessor.Process` (`base.Process`) is not part of this model. It is the `Delegated` outcome.
- `ContentHelper.GetMonoGamePlatform` is the `platform` parameter of `Process`.
- The build logger is a list of log entries. Output file names and message formatting are not modelled.
- `GetGLFormat`, the GL texture object and the texture parameters set in the constructor are not modelled. Whether a format is a compressed GL format is the `glCompressed`/`glCompressedFor` parameter. `GL.GenerateMipmap` is not modelled.
- TextureCubes.TextureCube.Create: the C# constructor is modelled as a factory method returning a `Result`, because a Dafny constructor cannot fail.
- `SurfaceFormat.cs` is not part of this model. The numeric codes of the formats the cube code names are constants.
- The `elementCount` argument of `SetData` is unused in the source, and also in the model.
- `GetData` is commented out in the source and is not modelled.
- `SetData` pins the array and frees the handle. Pinning and its release on an exception are not modelled.
- `TextureCubes.TextureCube.SetData` takes `data` as its bytes and `sizeof(T)`. Arrays whose byte length is not a multiple of the element size cannot arise and are excluded.
- TextureCubeReader.Read: the stream position after a failed read is not stated. Only the error is.
- Exceptions are `Result`/`Option` errors. Those that escape from the native codec or the GPU driver are not modelled.
- `MGModelProcessor` and the rest of the content pipeline are not part of this model.
- TextureContent.Texture.Valid: a texture with no faces, or with an empty mip chain, is excluded from the processor and conversion members. The source throws `ArgumentOutOfRangeException` on `Faces[0][0]` or `face[0]` for such a texture on the iOS compression path, and passes it through untouched on the other paths; neither is modelled.
- SurfaceFormats.DxtDoubles, SurfaceFormats.PvrtcMinimum, SurfaceFormats.ImageSizeMonotone, SurfaceFormats.PvrtcPowerOfTwo: stated for edges up to 16384 only. Above about 23170 the C# int size formulas overflow (`SurfaceFormats.ImageSizeOverflows`), so these properties do not hold there.
- Bitmap edges are at least 1 (`Extent`), as the content classes guarantee. The repaired edge can be below 1, and that is modelled as the `InvalidBitmapSize` outcome.
