/** The runtime cube texture: six faces allocated on the device at construction, and
    uploads of whole levels or sub-rectangles into one (face, level) slot at a time. The
    device is an abstract store of the calls made into each slot. */
module TextureCubes {
  import opened Int32
  import opened Wrappers
  import opened SurfaceFormats

  /** `CubeMapFace` values; any int32 can be cast to the enum. */
  const PositiveX: int32 := 0
  const NegativeX: int32 := 1
  const PositiveY: int32 := 2
  const NegativeY: int32 := 3
  const PositiveZ: int32 := 4
  const NegativeZ: int32 := 5

  /** The OpenGL targets `TEXTURE_CUBE_MAP_POSITIVE_X` .. `TEXTURE_CUBE_MAP_NEGATIVE_Z`. */
  const TextureCubeMapPositiveX: int := 0x8515
  const TextureCubeMapNegativeX: int := 0x8516
  const TextureCubeMapPositiveY: int := 0x8517
  const TextureCubeMapNegativeY: int := 0x8518
  const TextureCubeMapPositiveZ: int := 0x8519
  const TextureCubeMapNegativeZ: int := 0x851A

  /** `GetGLCubeFace`: the target of a face; no target (an `ArgumentException`) for a value
      that names no face. */
  function GetGLCubeFace(face: int32): Option<int>
  {
    if face == PositiveX then Some(TextureCubeMapPositiveX)
    else if face == NegativeX then Some(TextureCubeMapNegativeX)
    else if face == PositiveY then Some(TextureCubeMapPositiveY)
    else if face == NegativeY then Some(TextureCubeMapNegativeY)
    else if face == PositiveZ then Some(TextureCubeMapPositiveZ)
    else if face == NegativeZ then Some(TextureCubeMapNegativeZ)
    else None
  }

  /** The six faces have targets, in order and one apart; nothing else has one. */
  lemma CubeFaceTargets(face: int32)
    ensures GetGLCubeFace(face).Some? <==> 0 <= face < 6
    ensures GetGLCubeFace(face).Some? ==> GetGLCubeFace(face).value == TextureCubeMapPositiveX + face
  {
  }

  /** Different faces go to different targets. */
  lemma CubeFacesDistinct(f: int32, g: int32)
    requires GetGLCubeFace(f).Some? && GetGLCubeFace(g).Some? && f != g
    ensures GetGLCubeFace(f).value != GetGLCubeFace(g).value
  {
    CubeFaceTargets(f);
    CubeFaceTargets(g);
  }

  /** `Rectangle`. */
  datatype Rectangle = Rectangle(x: int32, y: int32, width: int32, height: int32)

  /** A device-side image: one face target at one mip level. */
  datatype Slot = Slot(target: int, level: int32)

  /** What the texture asks of the device. Allocations pass no pixel data; uploads point
      `offset` bytes into `bytes`. */
  datatype DeviceCall =
      /** `TexImage2D(target, 0, ..., extent, extent, 0, ..., null)` */
    | TexImage(extent: int32)
      /** `CompressedTexImage2D(target, 0, ..., extent, extent, 0, imageSize, null)` */
    | CompressedTexImage(extent: int32, imageSize: int32)
      /** `TexSubImage2D(target, level, x, y, width, height, ..., data + offset)` */
    | TexSubImage(region: Rectangle, bytes: seq<byte>, offset: int32)
      /** `CompressedTexSubImage2D(target, level, x, y, width, height, ..., byteCount, data + offset)` */
    | CompressedTexSubImage(region: Rectangle, byteCount: int32, bytes: seq<byte>, offset: int32)

  type DeviceStore = map<Slot, seq<DeviceCall>>

  /** The calls made so far into a slot. */
  function Calls(store: DeviceStore, slot: Slot): seq<DeviceCall>
  {
    if slot in store then store[slot] else []
  }

  datatype CubeError =
      /** `NotImplementedException`: a compressed format the size switch does not know. */
    | NotImplemented
      /** `ArgumentNullException("data")` */
    | ArgumentNull
      /** `ArgumentException` from `GetGLCubeFace`. */
    | InvalidFace

  // ---------------------------------------------------------------------------------------
  // Construction

  /** The call that reserves one face of edge `size`. */
  function AllocationCall(size: int32, format: SurfaceFormat, glCompressed: bool): DeviceCall
    requires glCompressed ==> CompressedImageSize(format, size).Some?
  {
    if glCompressed then CompressedTexImage(size, CompressedImageSize(format, size).value)
    else TexImage(size)
  }

  /** The device after the first `faces` faces have been reserved. */
  function AllocatedFaces(call: DeviceCall, faces: nat): DeviceStore
  {
    if faces == 0 then map[]
    else AllocatedFaces(call, faces - 1)[Slot(TextureCubeMapPositiveX + faces - 1, 0) := [call]]
  }

  /** The reserved slots are the level-0 slots of the first `faces` targets, each holding
      just the reservation. */
  lemma {:induction false} AllocatedFacesSlots(call: DeviceCall, faces: nat, slot: Slot)
    ensures slot in AllocatedFaces(call, faces) <==>
      slot.level == 0 && TextureCubeMapPositiveX <= slot.target < TextureCubeMapPositiveX + faces
    ensures slot in AllocatedFaces(call, faces) ==> AllocatedFaces(call, faces)[slot] == [call]
  {
    if faces > 0 {
      AllocatedFacesSlots(call, faces - 1, slot);
    }
  }

  /** After construction every face, and nothing else, holds exactly the one reservation
      at level 0, of size x size. */
  lemma AllocatedSixFaces(size: int32, format: SurfaceFormat, glCompressed: bool, face: int32, level: int32)
    requires glCompressed ==> CompressedImageSize(format, size).Some?
    ensures var store := AllocatedFaces(AllocationCall(size, format, glCompressed), 6);
      (GetGLCubeFace(face).Some? ==>
        Calls(store, Slot(GetGLCubeFace(face).value, 0)) == [AllocationCall(size, format, glCompressed)])
      && (forall slot :: slot in store ==> slot.level == 0 && exists f: int32 :: GetGLCubeFace(f) == Some(slot.target))
      && AllocationCall(size, format, glCompressed).extent == size
  {
    var call := AllocationCall(size, format, glCompressed);
    var store := AllocatedFaces(call, 6);
    forall slot | slot in store
      ensures slot.level == 0 && exists f: int32 :: GetGLCubeFace(f) == Some(slot.target)
    {
      AllocatedFacesSlots(call, 6, slot);
      var f: int32 := slot.target - TextureCubeMapPositiveX;
      CubeFaceTargets(f);
    }
    CubeFaceTargets(face);
    if GetGLCubeFace(face).Some? {
      AllocatedFacesSlots(call, 6, Slot(GetGLCubeFace(face).value, 0));
    }
  }

  /** The level count of the constructor: 1, or with `mipMap` one per halving of the edge
      down to 1. */
  function LevelCount(size: int32, mipMap: bool): (n: int32)
    ensures 1 <= n <= 31
  {
    if mipMap && size >= 1 then
      LevelCountBound(size);
      Log2(size) + 1
    else 1
  }

  lemma LevelCountBound(size: int32)
    requires 1 <= size
    ensures Log2(size) <= 30
  {
    Log2Bounds(size);
    Pow2Is32();
    if Log2(size) > 30 {
      Pow2Monotone(31, Log2(size));
    }
  }

  /** Halving `v` lowers its log by one. */
  lemma HalveLog(v: int)
    requires v > 1
    ensures Log2(v / 2) + 1 == Log2(v)
  {
  }

  // ---------------------------------------------------------------------------------------
  // Uploads

  /** The region an upload covers: the whole of `level` (`max(1, size >> level)` square at the
      origin) when no rectangle is given, the given rectangle as it is otherwise. */
  function UploadRegion(size: int32, level: int32, rect: Option<Rectangle>): Rectangle
  {
    if rect.Some? then rect.value
    else Rectangle(0, 0, MipExtent(size, level), MipExtent(size, level))
  }

  /** A whole-level upload covers exactly that level of the chain: level 0 is the full face,
      each level halves the one before, and the last level of a mipmapped cube is one texel. */
  lemma UploadRegionFollowsChain(size: int32, level: int32)
    requires 1 <= size && 0 <= level < LevelCount(size, true)
    ensures level == 0 ==> UploadRegion(size, 0, None) == Rectangle(0, 0, size, size)
    ensures 0 < level ==> UploadRegion(size, level, None).width == Max(UploadRegion(size, level - 1, None).width / 2, 1)
    ensures UploadRegion(size, level, None).width == 1 <==> level == LevelCount(size, true) - 1
  {
    if 0 < level {
      MipExtentHalves(size, level - 1);
    }
    MipExtentReachesOne(size, level);
  }

  /** A rectangle is taken as it is: neither clamped to the level nor checked. */
  lemma UploadRegionVerbatim(size: int32, level: int32, rect: Rectangle)
    ensures UploadRegion(size, level, Some(rect)) == rect
  {
  }

  /** `startIndex * sizeof(T)`, in int arithmetic. */
  function StartBytes(elementSize: int32, startIndex: int32): int32
  {
    Wrap(startIndex as int * elementSize as int)
  }

  /** The call `SetData` makes: region and data pointer, and for a compressed format the
      byte count `data.Length - startIndex * sizeof(T)`. */
  function UploadCall(size: int32, level: int32, rect: Option<Rectangle>, glCompressed: bool,
                      bytes: seq<byte>, elementSize: int32, startIndex: int32): DeviceCall
    requires 1 <= elementSize && |bytes| / elementSize as int < TwoTo31
  {
    var length: int32 := |bytes| / elementSize as int;
    var startBytes := StartBytes(elementSize, startIndex);
    var region := UploadRegion(size, level, rect);
    if glCompressed then CompressedTexSubImage(region, Wrap(length as int - startBytes as int), bytes, startBytes)
    else TexSubImage(region, bytes, startBytes)
  }

  /** For a byte array uploaded from its start, a compressed upload passes exactly the
      array's length as its byte count, and the whole array. */
  lemma UploadWholeByteArray(size: int32, level: int32, rect: Option<Rectangle>, bytes: seq<byte>)
    requires |bytes| < TwoTo31
    ensures UploadCall(size, level, rect, true, bytes, 1, 0) == CompressedTexSubImage(UploadRegion(size, level, rect), |bytes|, bytes, 0)
    ensures UploadCall(size, level, rect, false, bytes, 1, 0) == TexSubImage(UploadRegion(size, level, rect), bytes, 0)
  {
  }

  /** `TextureCube`. `glCompressed` stands for the format's GL format being
      `CompressedTextureFormats`; `store` is the device side of the texture. */
  class TextureCube {
    const size: int32
    const glCompressed: bool
    var levelCount: int32
    var store: DeviceStore

    constructor Empty(size: int32, glCompressed: bool)
      ensures this.size == size && this.glCompressed == glCompressed
      ensures levelCount == 1 && store == map[]
    {
      this.size := size;
      this.glCompressed := glCompressed;
      levelCount := 1;
      store := map[];
    }

    /** The constructor: reserve each of the six faces, then count the levels. Fails
        before reserving anything when the format is compressed but has no size formula. */
    static method Create(size: int32, mipMap: bool, format: SurfaceFormat, glCompressed: bool)
      returns (r: Result<TextureCube, CubeError>)
      ensures r.Failure? <==> glCompressed && CompressedImageSize(format, size).None?
      ensures r.Failure? ==> r.error == NotImplemented
      ensures r.Success? ==>
        fresh(r.value) && r.value.size == size && r.value.glCompressed == glCompressed
        && r.value.levelCount == LevelCount(size, mipMap)
        && r.value.store == AllocatedFaces(AllocationCall(size, format, glCompressed), 6)
    {
      var cube := new TextureCube.Empty(size, glCompressed);
      var i: int32 := 0;
      while i < 6
        invariant 0 <= i <= 6
        invariant i > 0 ==> !glCompressed || CompressedImageSize(format, size).Some?
        invariant cube.levelCount == 1
        invariant i > 0 ==> cube.store == AllocatedFaces(AllocationCall(size, format, glCompressed), i)
        invariant i == 0 ==> cube.store == map[]
      {
        CubeFaceTargets(i);
        var target := GetGLCubeFace(i).value;
        var call;
        if glCompressed {
          var imageSize := CompressedImageSize(format, size);
          if imageSize.None? {
            return Failure(NotImplemented);
          }
          call := CompressedTexImage(size, imageSize.value);
        } else {
          call := TexImage(size);
        }
        assert call == AllocationCall(size, format, glCompressed);
        AllocatedFacesSlots(call, i as nat, Slot(target, 0));
        assert Calls(cube.store, Slot(target, 0)) == [];
        assert AllocatedFaces(call, i as nat + 1) == AllocatedFaces(call, i as nat)[Slot(target, 0) := [call]];
        assert i == 0 ==> AllocatedFaces(call, 0) == map[];
        assert cube.store == AllocatedFaces(call, i as nat);
        assert Calls(cube.store, Slot(target, 0)) + [call] == [call];
        cube.store := cube.store[Slot(target, 0) := Calls(cube.store, Slot(target, 0)) + [call]];
        assert cube.store == AllocatedFaces(call, i as nat + 1);
        i := i + 1;
      }
      ghost var reserved := cube.store;
      if mipMap {
        var v := size;
        while v > 1
          invariant cube.store == reserved
          invariant cube.levelCount as int + (if v >= 1 then Log2(v) else 0) == LevelCount(size, mipMap) as int
          invariant v <= size
        {
          HalveLog(v);
          v := v / 2;
          cube.levelCount := cube.levelCount + 1;
        }
      }
      return Success(cube);
    }

    /** `SetData<T>` with `T[] data` given by its bytes and `sizeof(T)`; `elementCount` is not
        used. Null data and an unknown face fail before the device is touched; otherwise one
        call is recorded in the slot of the face's target at `level`, and in no other. */
    method SetData(face: int32, level: int32, rect: Option<Rectangle>, data: Option<seq<byte>>,
                   elementSize: int32, startIndex: int32, elementCount: int32)
      returns (err: Option<CubeError>)
      requires 1 <= elementSize
      requires data.Some? ==> |data.value| % elementSize as int == 0 && |data.value| / elementSize as int < TwoTo31
      modifies this`store
      ensures data.None? ==> err == Some(ArgumentNull) && store == old(store)
      ensures data.Some? && GetGLCubeFace(face).None? ==> err == Some(InvalidFace) && store == old(store)
      ensures data.Some? && GetGLCubeFace(face).Some? ==>
        var slot := Slot(GetGLCubeFace(face).value, level);
        err == None
        && store == old(store)[slot := Calls(old(store), slot)
             + [UploadCall(size, level, rect, glCompressed, data.value, elementSize, startIndex)]]
    {
      if data.None? {
        return Some(ArgumentNull);
      }
      var bytes := data.value;
      var length: int32 := |bytes| / elementSize as int;
      var startBytes := StartBytes(elementSize, startIndex);
      var xOffset: int32 := 0;
      var yOffset: int32 := 0;
      var width := MipExtent(size, level);
      var height := MipExtent(size, level);
      if rect.Some? {
        xOffset := rect.value.x;
        yOffset := rect.value.y;
        width := rect.value.width;
        height := rect.value.height;
      }
      var target := GetGLCubeFace(face);
      if target.None? {
        return Some(InvalidFace);
      }
      var region := Rectangle(xOffset, yOffset, width, height);
      var call;
      if glCompressed {
        call := CompressedTexSubImage(region, Wrap(length as int - startBytes as int), bytes, startBytes);
      } else {
        call := TexSubImage(region, bytes, startBytes);
      }
      var slot := Slot(target.value, level);
      store := store[slot := Calls(store, slot) + [call]];
      return None;
    }
  }
}
