/** `TextureCubeReader`: a cube texture read from a content stream — a header of surface
    format, edge size and level count, then for each of the six faces and each level a
    length-prefixed block of bytes uploaded into that face and level. */
module TextureCubeReader {
  import opened Int32
  import opened Wrappers
  import opened SurfaceFormats
  import opened TextureCubes

  // ---------------------------------------------------------------------------------------
  // The stream

  /** A little-endian int32, as `BinaryReader.ReadInt32` decodes it. */
  function DecodeInt32(b: seq<byte>): int32
    requires |b| == 4
  {
    Signed(b[0] as int + 0x100 * b[1] as int + 0x1_0000 * b[2] as int + 0x100_0000 * b[3] as int)
  }

  /** The four bytes a writer emits for an int32. */
  function EncodeInt32(x: int32): (b: seq<byte>)
    ensures |b| == 4
  {
    var u := Unsigned(x);
    [u % 0x100, u / 0x100 % 0x100, u / 0x1_0000 % 0x100, u / 0x100_0000]
  }

  lemma DecodeEncodeInt32(x: int32)
    ensures DecodeInt32(EncodeInt32(x)) == x
  {
    var u := Unsigned(x);
    var q1, q2, q3 := u / 0x100, u / 0x1_0000, u / 0x100_0000;
    assert q2 == q1 / 0x100 && q3 == q2 / 0x100;
    assert u == u % 0x100 + 0x100 * q1;
    assert q1 == q1 % 0x100 + 0x100 * q2;
    assert q2 == q2 % 0x100 + 0x100 * q3;
    var b := EncodeInt32(x);
    assert b == [u % 0x100, q1 % 0x100, q2 % 0x100, q3];
  }

  datatype ReadError =
      /** `EndOfStreamException` from `ReadInt32`. */
    | EndOfStream
      /** `ArgumentOutOfRangeException` from `ReadBytes` with a negative count. */
    | NegativeCount
      /** The texture's constructor threw. */
    | CubeFailure(error: CubeError)

  /** The contents of a `byte[]`: its length is an int. */
  type ByteArray = bytes: seq<byte> | |bytes| < TwoTo31

  /** An int32 at `pos` and the position after it. */
  function ReadInt32At(s: seq<byte>, pos: nat): Option<(int32, nat)>
  {
    if pos + 4 <= |s| then Some((DecodeInt32(s[pos..pos + 4]), pos + 4)) else None
  }

  /** `ReadBytes(count)` at `pos`: up to `count` bytes, fewer when the stream ends first. */
  function ReadBytesAt(s: seq<byte>, pos: nat, count: int32): Result<(ByteArray, nat), ReadError>
    requires pos <= |s|
  {
    if count < 0 then Failure(NegativeCount)
    else
      var end: nat := Min(pos + count as int, |s|);
      var bytes: ByteArray := s[..end][pos..];
      Success((bytes, end))
  }

  /** `ContentReader` over an in-memory stream. */
  class ContentReader {
    const stream: seq<byte>
    var position: nat

    ghost predicate Valid()
      reads this
    {
      position <= |stream|
    }

    constructor (stream: seq<byte>)
      ensures this.stream == stream && position == 0 && Valid()
    {
      this.stream := stream;
      position := 0;
    }

    method ReadInt32() returns (r: Option<int32>)
      requires Valid()
      modifies this`position
      ensures Valid()
      ensures ReadInt32At(stream, old(position)).None? ==> r.None?
      ensures ReadInt32At(stream, old(position)).Some? ==>
        r == Some(ReadInt32At(stream, old(position)).value.0) && position == ReadInt32At(stream, old(position)).value.1
    {
      if position + 4 > |stream| {
        return None;
      }
      r := Some(DecodeInt32(stream[position..position + 4]));
      position := position + 4;
    }

    method ReadBytes(count: int32) returns (r: Result<ByteArray, ReadError>)
      requires Valid()
      modifies this`position
      ensures Valid()
      ensures ReadBytesAt(stream, old(position), count).Failure? ==>
        r == Failure(ReadBytesAt(stream, old(position), count).error)
      ensures ReadBytesAt(stream, old(position), count).Success? ==>
        r == Success(ReadBytesAt(stream, old(position), count).value.0)
        && position == ReadBytesAt(stream, old(position), count).value.1
    {
      if count < 0 {
        return Failure(NegativeCount);
      }
      var end := Min(position + count as int, |stream|);
      var bytes: ByteArray := stream[position..end];
      r := Success(bytes);
      position := end;
    }
  }

  // ---------------------------------------------------------------------------------------
  // The layout

  datatype Header = Header(format: SurfaceFormat, size: int32, levels: int32)

  /** The three header ints, in the order format, size, levels. */
  function ParseHeader(s: seq<byte>, pos: nat): (r: Option<(Header, nat)>)
    ensures r.Some? <==> pos + 12 <= |s|
    ensures r.Some? ==> r.value.1 == pos + 12
  {
    match ReadInt32At(s, pos)
    case None => None
    case Some((format, p1)) =>
      match ReadInt32At(s, p1)
      case None => None
      case Some((size, p2)) =>
        match ReadInt32At(s, p2)
        case None => None
        case Some((levels, p3)) => Some((Header(format, size, levels), p3))
  }

  /** The number of records: six faces, `levels` each (none when `levels` is not positive). */
  function RecordCount(levels: int32): nat
  {
    6 * Max(levels, 0)
  }

  /** One record: an int32 length, then up to that many bytes. */
  function ParseRecord(s: seq<byte>, pos: nat): (r: Result<(ByteArray, nat), ReadError>)
    requires pos <= |s|
    ensures r.Success? ==> pos + 4 <= r.value.1 <= |s| && r.value.1 == pos + 4 + |r.value.0|
  {
    match ReadInt32At(s, pos)
    case None => Failure(EndOfStream)
    case Some((count, p)) => ReadBytesAt(s, p, count)
  }

  /** The first n records from `pos`, and the position after them. */
  function ParseRecords(s: seq<byte>, pos: nat, n: nat): (r: Result<(seq<ByteArray>, nat), ReadError>)
    requires pos <= |s|
    ensures r.Success? ==> |r.value.0| == n && pos <= r.value.1 <= |s|
    decreases n, 1
  {
    if n == 0 then Success(([], pos)) else ParseNextRecord(s, pos, n)
  }

  /** The run of n - 1 records followed by one more. */
  function ParseNextRecord(s: seq<byte>, pos: nat, n: nat): (r: Result<(seq<ByteArray>, nat), ReadError>)
    requires pos <= |s| && 1 <= n
    ensures r.Success? ==> |r.value.0| == n && pos <= r.value.1 <= |s|
    decreases n, 0
  {
    match ParseRecords(s, pos, n - 1)
    case Failure(e) => Failure(e)
    case Success((records, p)) =>
      match ParseRecord(s, p)
      case Failure(e) => Failure(e)
      case Success((record, q)) => Success((records + [record], q))
  }

  /** Bytes a run of records takes up: a 4-byte length and the bytes, each. */
  function RecordBytes(records: seq<ByteArray>): nat
  {
    if records == [] then 0 else RecordBytes(records[..|records| - 1]) + 4 + |records[|records| - 1]|
  }

  /** Parsing consumes exactly the records it returns, length prefixes included. */
  lemma {:induction false} ParseRecordsConsumes(s: seq<byte>, pos: nat, n: nat)
    requires pos <= |s| && ParseRecords(s, pos, n).Success?
    ensures ParseRecords(s, pos, n).value.1 == pos + RecordBytes(ParseRecords(s, pos, n).value.0)
  {
    if n > 0 {
      ParseRecordsConsumes(s, pos, n - 1);
      var records := ParseRecords(s, pos, n).value.0;
      assert records[..n - 1] == ParseRecords(s, pos, n - 1).value.0;
    }
  }

  /** Once a record fails to parse, every longer run fails the same way. */
  lemma {:induction false} ParseRecordsFailureStays(s: seq<byte>, pos: nat, m: nat, n: nat)
    requires pos <= |s| && m <= n && ParseRecords(s, pos, m).Failure?
    ensures ParseRecords(s, pos, n) == ParseRecords(s, pos, m)
  {
    if m < n {
      ParseRecordsFailureStays(s, pos, m, n - 1);
    }
  }

  // ---------------------------------------------------------------------------------------
  // Writing the layout, and reading it back

  function EncodeRecords(records: seq<ByteArray>): (b: seq<byte>)
    ensures |b| == RecordBytes(records)
  {
    if records == [] then []
    else
      var last := records[|records| - 1];
      EncodeRecords(records[..|records| - 1]) + EncodeRecord(last)
  }

  /** One record as written: its length as an int, then its bytes. */
  function EncodeRecord(data: ByteArray): (b: seq<byte>)
    ensures |b| == 4 + |data|
  {
    EncodeInt32(|data|) + data
  }

  /** The stream a writer produces for a cube: the header, then the records. */
  function Encode(h: Header, records: seq<ByteArray>): (b: seq<byte>)
    ensures |b| == 12 + RecordBytes(records)
  {
    EncodeInt32(h.format) + EncodeInt32(h.size) + EncodeInt32(h.levels) + EncodeRecords(records)
  }

  lemma ReadInt32Encoded(s: seq<byte>, pos: nat, x: int32)
    requires pos + 4 <= |s| && s[pos..pos + 4] == EncodeInt32(x)
    ensures ReadInt32At(s, pos) == Some((x, pos + 4))
  {
    DecodeEncodeInt32(x);
  }

  /** Splitting a stream that holds a + b into the part holding a and the part holding b. */
  lemma SplitSlice(s: seq<byte>, pos: nat, a: seq<byte>, b: seq<byte>)
    requires pos + |a + b| <= |s| && s[pos..pos + |a + b|] == a + b
    ensures s[pos..pos + |a|] == a
    ensures s[pos + |a|..pos + |a| + |b|] == b
  {
    assert s[pos..pos + |a|] == s[pos..pos + |a + b|][..|a|];
    assert s[pos + |a|..pos + |a| + |b|] == s[pos..pos + |a + b|][|a|..];
  }

  /** One more written record after a parsed run extends the run by that record. */
  lemma ParseRecordsStep(s: seq<byte>, pos: nat, front: seq<ByteArray>, p: nat, last: ByteArray)
    requires pos <= |s|
    requires ParseRecords(s, pos, |front|) == Success((front, p))
    requires p + |EncodeRecord(last)| <= |s| && s[p..p + |EncodeRecord(last)|] == EncodeRecord(last)
    ensures ParseRecords(s, pos, |front| + 1) == Success((front + [last], p + 4 + |last|))
  {
    SplitSlice(s, p, EncodeInt32(|last|), last);
    ReadInt32Encoded(s, p, |last| as int32);
  }

  /** Reading records back from anywhere in a stream gives the records that were written. */
  lemma {:induction false} ParseEncodedRecords(s: seq<byte>, pos: nat, records: seq<ByteArray>)
    requires pos + |EncodeRecords(records)| <= |s| && s[pos..pos + |EncodeRecords(records)|] == EncodeRecords(records)
    ensures ParseRecords(s, pos, |records|) == Success((records, pos + |EncodeRecords(records)|))
  {
    if records != [] {
      var front, last := records[..|records| - 1], records[|records| - 1];
      assert records == front + [last];
      EncodeRecordsSnoc(s, pos, front, last, records);
      ParseEncodedRecords(s, pos, front);
      ParseRecordsStep(s, pos, front, pos + |EncodeRecords(front)|, last);
    }
  }

  /** A stream holding the records front + [last] holds those of front, then last. */
  lemma EncodeRecordsSnoc(s: seq<byte>, pos: nat, front: seq<ByteArray>, last: ByteArray, records: seq<ByteArray>)
    requires records == front + [last]
    requires pos + |EncodeRecords(records)| <= |s| && s[pos..pos + |EncodeRecords(records)|] == EncodeRecords(records)
    ensures |EncodeRecords(records)| == |EncodeRecords(front)| + |EncodeRecord(last)|
    ensures s[pos..pos + |EncodeRecords(front)|] == EncodeRecords(front)
    ensures s[pos + |EncodeRecords(front)|..pos + |EncodeRecords(front)| + |EncodeRecord(last)|] == EncodeRecord(last)
  {
    assert records[..|front|] == front;
    SplitSlice(s, pos, EncodeRecords(front), EncodeRecord(last));
  }

  /** The header reads back as the three ints written into it. */
  lemma ParseEncodedHeader(s: seq<byte>, pos: nat, h: Header)
    requires pos + 12 <= |s|
    requires s[pos..pos + 12] == EncodeInt32(h.format) + EncodeInt32(h.size) + EncodeInt32(h.levels)
    ensures ParseHeader(s, pos) == Some((h, pos + 12))
  {
    SplitSlice(s, pos, EncodeInt32(h.format) + EncodeInt32(h.size), EncodeInt32(h.levels));
    SplitSlice(s, pos, EncodeInt32(h.format), EncodeInt32(h.size));
    ReadInt32Encoded(s, pos, h.format);
    ReadInt32Encoded(s, pos + 4, h.size);
    ReadInt32Encoded(s, pos + 8, h.levels);
  }

  /** A well-formed stream reads back as the header and records written into it, and
      takes up 12 + sum of (4 + length) bytes. */
  lemma ParseEncoded(s: seq<byte>, pos: nat, h: Header, records: seq<ByteArray>)
    requires |records| == RecordCount(h.levels)
    requires pos + |Encode(h, records)| <= |s| && s[pos..pos + |Encode(h, records)|] == Encode(h, records)
    ensures ParseHeader(s, pos) == Some((h, pos + 12))
    ensures ParseRecords(s, pos + 12, RecordCount(h.levels)) == Success((records, pos + 12 + RecordBytes(records)))
  {
    var head := EncodeInt32(h.format) + EncodeInt32(h.size) + EncodeInt32(h.levels);
    SplitSlice(s, pos, head, EncodeRecords(records));
    ParseEncodedHeader(s, pos, h);
    ParseEncodedRecords(s, pos + 12, records);
  }

  // ---------------------------------------------------------------------------------------
  // Uploading the records

  /** The index of the first record of face `face` when each face has `levels` records. */
  function FaceStart(face: nat, levels: nat): nat
  {
    if face == 0 then 0 else FaceStart(face - 1, levels) + levels
  }

  lemma {:induction false} FaceStartIsProduct(face: nat, levels: nat)
    ensures FaceStart(face, levels) == face * levels
  {
    if face > 0 {
      FaceStartIsProduct(face - 1, levels);
      assert (face - 1) * levels + levels == face * levels;
    }
  }

  /** Later faces start later. */
  lemma {:induction false} FaceStartMonotone(f: nat, g: nat, levels: nat)
    requires f <= g
    ensures FaceStart(f, levels) <= FaceStart(g, levels)
  {
    if f < g {
      FaceStartMonotone(f, g - 1, levels);
    }
  }

  /** The face and level record k is uploaded to, counted the way the reader's nested loop
      counts: levels run fastest, and after the last level the next face starts. */
  function Address(k: nat, levels: nat): (a: (nat, nat))
    requires 1 <= levels
    ensures a.1 < levels
  {
    if k < levels then (0, k)
    else
      var (face, level) := Address(k - levels, levels);
      (face + 1, level)
  }

  /** Record k goes to face f at level i exactly when i is a level and k is the i-th record
      of face f; so no two records share a slot. */
  lemma {:induction false} AddressOf(k: nat, levels: nat, face: nat, level: nat)
    requires 1 <= levels
    ensures Address(k, levels) == (face, level) <==> level < levels && FaceStart(face, levels) + level == k
  {
    if k >= levels {
      if face > 0 {
        AddressOf(k - levels, levels, face - 1, level);
      } else {
        AddressOf(k - levels, levels, 0, level);
      }
    } else if face > 0 {
      assert FaceStart(face, levels) >= levels;
    }
  }

  /** The slot record k is uploaded to. */
  function RecordSlot(k: nat, levels: int32): Slot
    requires 1 <= levels
  {
    var (face, level) := Address(k, levels as nat);
    Slot(TextureCubeMapPositiveX + face, level as int32)
  }

  /** The call `SetData` makes for a record: the whole byte array, from its start, into the
      whole level (`UploadWholeByteArray`). */
  function RecordUpload(size: int32, level: int32, compressed: bool, bytes: ByteArray): DeviceCall
  {
    var region := UploadRegion(size, level, None);
    if compressed then CompressedTexSubImage(region, |bytes|, bytes, 0) else TexSubImage(region, bytes, 0)
  }

  /** The device after the records have been uploaded in stream order, each as one
      whole-level upload of its bytes into its slot. */
  function ApplyRecords(store: DeviceStore, size: int32, compressed: bool, levels: int32,
                        records: seq<ByteArray>): DeviceStore
    requires records != [] ==> 1 <= levels
    decreases |records|, 1
  {
    if records == [] then store else ApplyLastRecord(store, size, compressed, levels, records)
  }

  /** The device after all records but the last, with the last one's upload added. */
  function ApplyLastRecord(store: DeviceStore, size: int32, compressed: bool, levels: int32,
                           records: seq<ByteArray>): DeviceStore
    requires records != [] && 1 <= levels
    decreases |records|, 0
  {
      var k := |records| - 1;
      var slot := RecordSlot(k, levels);
      var prev := ApplyRecords(store, size, compressed, levels, records[..k]);
      prev[slot := Calls(prev, slot) + [RecordUpload(size, slot.level, compressed, records[k])]]
  }

  /** Uploading one more record adds its call to its own slot. */
  lemma ApplyRecordsSnoc(store: DeviceStore, size: int32, compressed: bool, levels: int32,
                         records: seq<ByteArray>, record: ByteArray)
    requires 1 <= levels
    ensures var slot := RecordSlot(|records|, levels);
      var prev := ApplyRecords(store, size, compressed, levels, records);
      ApplyRecords(store, size, compressed, levels, records + [record])
      == prev[slot := Calls(prev, slot) + [RecordUpload(size, slot.level, compressed, record)]]
  {
    assert (records + [record])[..|records|] == records;
  }

  /** What the uploads add to a slot: the record whose face and level it is, if any. */
  function Uploaded(size: int32, compressed: bool, levels: int32, records: seq<ByteArray>, slot: Slot): seq<DeviceCall>
  {
    var face := slot.target - TextureCubeMapPositiveX;
    if 0 <= face && 0 <= slot.level < levels && FaceStart(face, levels as nat) + slot.level as int < |records|
    then [RecordUpload(size, slot.level, compressed, records[FaceStart(face, levels as nat) + slot.level as int])]
    else []
  }

  /** The uploads a slot receives from a run grow by the last record only when it is that
      slot's own record. */
  lemma UploadedLast(size: int32, compressed: bool, levels: int32, records: seq<ByteArray>, slot: Slot)
    requires 1 <= levels && records != []
    ensures var k := |records| - 1;
      Uploaded(size, compressed, levels, records, slot)
      == if slot == RecordSlot(k, levels)
         then Uploaded(size, compressed, levels, records[..k], slot) + [RecordUpload(size, slot.level, compressed, records[k])]
         else Uploaded(size, compressed, levels, records[..k], slot)
  {
    var k := |records| - 1;
    var face := slot.target - TextureCubeMapPositiveX;
    if 0 <= face && 0 <= slot.level {
      AddressOf(k, levels as nat, face, slot.level as nat);
    }
  }

  /** Every slot ends up with what it held plus the one record addressed to it; no record
      lands in two slots and no slot receives two records. */
  lemma {:induction false} ApplyRecordsSlot(store: DeviceStore, size: int32, compressed: bool, levels: int32,
                                            records: seq<ByteArray>, slot: Slot)
    requires 1 <= levels
    ensures Calls(ApplyRecords(store, size, compressed, levels, records), slot)
         == Calls(store, slot) + Uploaded(size, compressed, levels, records, slot)
  {
    if records != [] {
      var k := |records| - 1;
      var front := records[..k];
      ApplyRecordsSlot(store, size, compressed, levels, front, slot);
      UploadedLast(size, compressed, levels, records, slot);
      var received := Uploaded(size, compressed, levels, front, slot);
      if slot == RecordSlot(k, levels) {
        var call := RecordUpload(size, slot.level, compressed, records[k]);
        assert Calls(store, slot) + received + [call] == Calls(store, slot) + (received + [call]);
      }
    }
  }

  // ---------------------------------------------------------------------------------------
  // Read

  /** The observable state of a cube texture. */
  datatype CubeState = CubeState(size: int32, glCompressed: bool, levelCount: int32, store: DeviceStore)

  /** The cube a header and its records describe: the six reservations of `Create`, then
      every record uploaded into its slot. */
  function BuildCube(h: Header, format: SurfaceFormat, compressed: bool, records: seq<ByteArray>): CubeState
    requires compressed ==> CompressedImageSize(format, h.size).Some?
    requires |records| == RecordCount(h.levels)
  {
    var reserved := AllocatedFaces(AllocationCall(h.size, format, compressed), 6);
    CubeState(h.size, compressed, LevelCount(h.size, h.levels > 1),
              ApplyRecords(reserved, h.size, compressed, h.levels, records))
  }

  /** What reading a cube from `pos` yields, and the position after it. `glCompressedFor`
      stands for the device's choice of a compressed GL format for a surface format. */
  function ReadCube(s: seq<byte>, pos: nat, platform: Platform, glCompressedFor: SurfaceFormat -> bool)
    : Result<(CubeState, nat), ReadError>
    requires pos <= |s|
  {
    match ParseHeader(s, pos)
    case None => Failure(EndOfStream)
    case Some((h, p)) =>
      var format := Substitute(platform, h.format);
      var compressed := glCompressedFor(format);
      if compressed && CompressedImageSize(format, h.size).None? then Failure(CubeFailure(NotImplemented))
      else
        match ParseRecords(s, p, RecordCount(h.levels))
        case Failure(e) => Failure(e)
        case Success((records, next)) => Success((BuildCube(h, format, compressed, records), next))
  }

  /** Each face's level holds its reservation (level 0 only) followed by the record written
      for it, the one at face * levels + level. */
  lemma CubeFaceLevel(h: Header, format: SurfaceFormat, compressed: bool, records: seq<ByteArray>,
                      face: int32, level: int32)
    requires compressed ==> CompressedImageSize(format, h.size).Some?
    requires |records| == RecordCount(h.levels)
    requires 0 <= face < 6 && 0 <= level < h.levels
    ensures 0 <= face as int * h.levels as int + level as int < |records|
    ensures Calls(BuildCube(h, format, compressed, records).store, Slot(TextureCubeMapPositiveX + face as int, level))
         == (if level == 0 then [AllocationCall(h.size, format, compressed)] else [])
            + [RecordUpload(h.size, level, compressed, records[face as int * h.levels as int + level as int])]
  {
    var k := face as int * h.levels as int + level as int;
    RecordIndex(face, level, h.levels);
    var reservation := AllocationCall(h.size, format, compressed);
    var slot := Slot(TextureCubeMapPositiveX + face as int, level);
    AllocatedFacesSlots(reservation, 6, slot);
    assert Uploaded(h.size, compressed, h.levels, records, slot) == [RecordUpload(h.size, level, compressed, records[k])];
    ApplyRecordsSlot(AllocatedFaces(reservation, 6), h.size, compressed, h.levels, records, slot);
  }

  /** The record of a face's level sits at face * levels + level, inside the run of six faces. */
  lemma RecordIndex(face: int32, level: int32, levels: int32)
    requires 0 <= face < 6 && 0 <= level < levels
    ensures FaceStart(face as nat, levels as nat) + level as int == face as int * levels as int + level as int
    ensures face as int * levels as int + level as int < RecordCount(levels)
  {
    FaceStartIsProduct(face as nat, levels as nat);
    assert face as int * levels as int + levels as int <= 6 * levels as int;
  }

  /** Nothing but the six faces' levels is touched: any other slot stays empty. */
  lemma CubeOtherSlots(h: Header, format: SurfaceFormat, compressed: bool, records: seq<ByteArray>, slot: Slot)
    requires compressed ==> CompressedImageSize(format, h.size).Some?
    requires |records| == RecordCount(h.levels)
    requires !(TextureCubeMapPositiveX <= slot.target <= TextureCubeMapNegativeZ && 0 <= slot.level < Max(h.levels, 1))
    ensures Calls(BuildCube(h, format, compressed, records).store, slot) == []
  {
    var reservation := AllocationCall(h.size, format, compressed);
    AllocatedFacesSlots(reservation, 6, slot);
    if 1 <= h.levels {
      ApplyRecordsSlot(AllocatedFaces(reservation, 6), h.size, compressed, h.levels, records, slot);
      var face := slot.target - TextureCubeMapPositiveX;
      if 6 <= face && slot.level < h.levels {
        FaceStartIsProduct(6, h.levels as nat);
        FaceStartMonotone(6, face, h.levels as nat);
      }
    }
  }

  /** A cube written with `Encode` reads back whole: the stream is consumed to its end and
      the cube is the one its header and records describe. */
  lemma ReadEncodedCube(s: seq<byte>, pos: nat, platform: Platform, glCompressedFor: SurfaceFormat -> bool,
                        h: Header, records: seq<ByteArray>)
    requires |records| == RecordCount(h.levels)
    requires pos + |Encode(h, records)| <= |s| && s[pos..pos + |Encode(h, records)|] == Encode(h, records)
    requires var format := Substitute(platform, h.format);
      !glCompressedFor(format) || CompressedImageSize(format, h.size).Some?
    ensures var format := Substitute(platform, h.format);
      ReadCube(s, pos, platform, glCompressedFor)
      == Success((BuildCube(h, format, glCompressedFor(format), records), pos + |Encode(h, records)|))
  {
    ParseEncoded(s, pos, h, records);
  }

  /** One more record parsed after a run of n: the run of n + 1, or the record's error. */
  lemma ParseRecordsNext(s: seq<byte>, pos: nat, n: nat, records: seq<ByteArray>, q: nat)
    requires pos <= |s| && ParseRecords(s, pos, n) == Success((records, q))
    ensures q <= |s|
    ensures ParseRecord(s, q).Failure? ==> ParseRecords(s, pos, n + 1) == Failure(ParseRecord(s, q).error)
    ensures ParseRecord(s, q).Success? ==>
      ParseRecords(s, pos, n + 1) == Success((records + [ParseRecord(s, q).value.0], ParseRecord(s, q).value.1))
  {
  }

  /** One record as the reader's loop body reads it: the length, then the bytes. */
  method ReadRecord(reader: ContentReader) returns (faceSize: int32, faceData: Result<ByteArray, ReadError>)
    requires reader.Valid()
    modifies reader`position
    ensures reader.Valid()
    ensures faceData.Failure? <==> ParseRecord(reader.stream, old(reader.position)).Failure?
    ensures faceData.Failure? ==> faceData.error == ParseRecord(reader.stream, old(reader.position)).error
    ensures faceData.Success? ==>
      (faceData.value, reader.position) == ParseRecord(reader.stream, old(reader.position)).value
  {
    var length := reader.ReadInt32();
    if length.None? {
      return 0, Failure(EndOfStream);
    }
    faceSize := length.value;
    faceData := reader.ReadBytes(faceSize);
  }

  /** The reader after the first n records from `start`: they parse to `records` and end
      at `pos`, and the device holds `reserved` with each of them uploaded. */
  ghost predicate Progress(s: seq<byte>, start: nat, n: nat, records: seq<ByteArray>, pos: nat,
                           store: DeviceStore, reserved: DeviceStore, size: int32, compressed: bool, levels: int32)
  {
    start <= pos <= |s| && ParseRecords(s, start, n) == Success((records, pos))
    && (records != [] ==> 1 <= levels) && store == ApplyRecords(reserved, size, compressed, levels, records)
  }

  /** A record that fails to parse after the first k makes any longer run fail with it. */
  lemma ProgressFails(s: seq<byte>, start: nat, k: nat, n: nat, before: seq<ByteArray>, pos: nat)
    requires start <= |s| && k < n && ParseRecords(s, start, k) == Success((before, pos))
    requires ParseRecord(s, pos).Failure?
    ensures ParseRecords(s, start, n) == Failure(ParseRecord(s, pos).error)
  {
    ParseRecordsNext(s, start, k, before, pos);
    ParseRecordsFailureStays(s, start, k + 1, n);
  }

  /** A record that parses after the first k, uploaded whole into the face and level the
      reader's loops are at, extends the progress by one record. */
  lemma ProgressStep(s: seq<byte>, start: nat, k: nat, before: seq<ByteArray>, pos: nat, store: DeviceStore,
                     reserved: DeviceStore, size: int32, compressed: bool, levels: int32, face: int32, level: int32)
    requires Progress(s, start, k, before, pos, store, reserved, size, compressed, levels)
    requires 0 <= face < 6 && 0 <= level < levels && k == FaceStart(face as nat, Max(levels, 0) as nat) + level as int
    requires ParseRecord(s, pos).Success?
    ensures var (record, q) := ParseRecord(s, pos).value;
      var slot := Slot(TextureCubeMapPositiveX + face as int, level);
      Progress(s, start, k + 1, before + [record], q,
               store[slot := Calls(store, slot) + [UploadCall(size, level, None, compressed, record, 1, 0)]],
               reserved, size, compressed, levels)
  {
    var (record, q) := ParseRecord(s, pos).value;
    var slot := Slot(TextureCubeMapPositiveX + face as int, level);
    AddressOf(k, levels as nat, face as nat, level as nat);
    assert RecordSlot(k, levels) == slot;
    UploadWholeByteArray(size, level, None, record);
    assert RecordUpload(size, level, compressed, record) == UploadCall(size, level, None, compressed, record, 1, 0);
    ParseRecordsNext(s, start, k, before, pos);
    ApplyRecordsSnoc(reserved, size, compressed, levels, before, record);
  }

  /** The record of one face at one level, uploaded into that face at that level; `k` is
      the number of records before it. On an error the whole run of records fails with it. */
  method ReadLevel(reader: ContentReader, cube: TextureCube, face: int32, level: int32, levels: int32,
                   ghost start: nat, ghost k: nat, ghost reserved: DeviceStore, ghost before: seq<ByteArray>)
    returns (err: Option<ReadError>, ghost records: seq<ByteArray>)
    requires reader.Valid() && 0 <= face < 6 && 0 <= level < levels
    requires k == FaceStart(face as nat, Max(levels, 0) as nat) + level as int && k < RecordCount(levels)
    requires Progress(reader.stream, start, k, before, reader.position, cube.store, reserved, cube.size, cube.glCompressed, levels)
    modifies reader`position, cube`store
    ensures reader.Valid()
    ensures err.Some? ==> ParseRecords(reader.stream, start, RecordCount(levels)) == Failure(err.value)
    ensures err.None? ==>
      Progress(reader.stream, start, k + 1, records, reader.position, cube.store, reserved, cube.size, cube.glCompressed, levels)
  {
    ghost var s, pos, store := reader.stream, reader.position, cube.store;
    var faceSize, faceData := ReadRecord(reader);
    if faceData.Failure? {
      ProgressFails(s, start, k, RecordCount(levels), before, pos);
      return Some(faceData.error), before;
    }
    ProgressStep(s, start, k, before, pos, store, reserved, cube.size, cube.glCompressed, levels, face, level);
    CubeFaceTargets(face);
    var _ := cube.SetData(face, level, None, Some(faceData.value), 1, 0, faceSize);
    return None, before + [faceData.value];
  }

  /** The records of one face, level by level; `base` is the number of records before this
      face. On an error the reader stops: the whole run of records fails with that error. */
  method ReadFace(reader: ContentReader, cube: TextureCube, face: int32, levels: int32,
                  ghost start: nat, ghost base: nat, ghost reserved: DeviceStore, ghost before: seq<ByteArray>)
    returns (err: Option<ReadError>, ghost records: seq<ByteArray>)
    requires reader.Valid() && 0 <= face < 6
    requires base == FaceStart(face as nat, Max(levels, 0) as nat) && base + Max(levels, 0) <= RecordCount(levels)
    requires Progress(reader.stream, start, base, before, reader.position, cube.store, reserved, cube.size, cube.glCompressed, levels)
    modifies reader`position, cube`store
    ensures reader.Valid()
    ensures err.Some? ==> ParseRecords(reader.stream, start, RecordCount(levels)) == Failure(err.value)
    ensures err.None? ==> Progress(reader.stream, start, base + Max(levels, 0), records, reader.position,
                                   cube.store, reserved, cube.size, cube.glCompressed, levels)
  {
    records := before;
    ghost var n := base;
    var i: int32 := 0;
    while i < levels
      invariant 0 <= i as int <= Max(levels, 0) && n == base + i as int && reader.Valid()
      invariant Progress(reader.stream, start, n, records, reader.position, cube.store, reserved, cube.size, cube.glCompressed, levels)
    {
      err, records := ReadLevel(reader, cube, face, i, levels, start, n, reserved, records);
      if err.Some? {
        return;
      }
      i := i + 1;
      n := n + 1;
    }
    return None, records;
  }

  /** The six faces' records, in order, uploaded into `cube`. */
  method ReadFaces(reader: ContentReader, cube: TextureCube, levels: int32) returns (err: Option<ReadError>)
    requires reader.Valid()
    modifies reader`position, cube`store
    ensures reader.Valid()
    ensures var expected := ParseRecords(reader.stream, old(reader.position), RecordCount(levels));
      (err.Some? <==> expected.Failure?)
      && (err.Some? ==> err.value == expected.error)
      && (err.None? ==>
            reader.position == expected.value.1
            && cube.store == ApplyRecords(old(cube.store), cube.size, cube.glCompressed, levels, expected.value.0))
  {
    ghost var start := reader.position;
    ghost var reserved := cube.store;
    ghost var records: seq<ByteArray> := [];
    ghost var perFace := Max(levels, 0) as nat;
    FaceStartIsProduct(6, perFace);
    var face: int32 := 0;
    while face < 6
      invariant 0 <= face <= 6 && reader.Valid()
      invariant Progress(reader.stream, start, FaceStart(face as nat, perFace), records, reader.position,
                         cube.store, reserved, cube.size, cube.glCompressed, levels)
    {
      FaceStartMonotone(face as nat + 1, 6, perFace);
      err, records := ReadFace(reader, cube, face, levels, start, FaceStart(face as nat, perFace), reserved, records);
      if err.Some? {
        return;
      }
      face := face + 1;
    }
    return None;
  }

  /** `TextureCubeReader.Read`: the header, the platform's substitute format, the texture,
      then the records face by face, level by level, each uploaded as it is read. */
  method Read(reader: ContentReader, platform: Platform, glCompressedFor: SurfaceFormat -> bool)
    returns (r: Result<TextureCube, ReadError>)
    requires reader.Valid()
    modifies reader`position
    ensures reader.Valid()
    ensures r.Failure? <==> ReadCube(reader.stream, old(reader.position), platform, glCompressedFor).Failure?
    ensures r.Failure? ==> r.error == ReadCube(reader.stream, old(reader.position), platform, glCompressedFor).error
    ensures r.Success? ==>
      var (cube, next) := ReadCube(reader.stream, old(reader.position), platform, glCompressedFor).value;
      fresh(r.value) && reader.position == next
      && CubeState(r.value.size, r.value.glCompressed, r.value.levelCount, r.value.store) == cube
  {
    var surfaceFormat := reader.ReadInt32();
    if surfaceFormat.None? {
      return Failure(EndOfStream);
    }
    var size := reader.ReadInt32();
    if size.None? {
      return Failure(EndOfStream);
    }
    var levels := reader.ReadInt32();
    if levels.None? {
      return Failure(EndOfStream);
    }
    var convertedFormat := Substitute(platform, surfaceFormat.value);
    var created := TextureCube.Create(size.value, levels.value > 1, convertedFormat, glCompressedFor(convertedFormat));
    if created.Failure? {
      return Failure(CubeFailure(created.error));
    }
    var textureCube := created.value;
    var err := ReadFaces(reader, textureCube, levels.value);
    if err.Some? {
      return Failure(err.value);
    }
    return Success(textureCube);
  }
}
