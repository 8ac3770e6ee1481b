// extensions/img: the ISO 9660 records the IMG extension reads out of a raw
// disc image. Path-table records follow section 9.4 of ECMA-119 and directory
// records section 9.1; Entry::write lays a file's bytes out over the image's
// sectors, one logical block per sector.

module Img {
  import opened Bytes
  import Util
  import Helpers
  import Bits

  /** Path::SectionHeaderSize and Entry::SectionHeaderSize: the bytes in front
    * of a raw sector's user data. */
  const SectionHeaderSize := 0x18

  // ---------------------------------------------------------------------------
  // Path (img_path.cpp)

  /** A path-table record: its raw bytes, the extent of the directory, the
    * number of its parent directory and its identifier. */
  datatype Path = Path(raw: seq<byte>, location: u32, parent: u16, identifier: string)

  /** The length of a path-table record whose identifier has idLength bytes: an
    * 8-byte header, the identifier, and one pad byte when its length is odd. */
  function RecordLength(idLength: byte): (r: nat)
    ensures r % 2 == 0 && 8 + idLength <= r <= 8 + idLength + 1
  {
    8 + idLength + idLength % 2
  }

  /** IMGHelper::read(data, offset, size): exactly `size` bytes as text, with the
    * trailing blanks dropped (unlike Util::read there is no NUL scan). */
  function Identifier(raw: seq<byte>, size: byte): (r: string)
    requires 8 + size <= |raw|
    ensures |r| <= size
  {
    Util.TrimRight(Chars(raw[8..8 + size]))
  }

  /** An identifier that is empty or starts with NUL stands for the root ".".
    * (An empty std::string still yields its terminating NUL at index 0.) */
  function RootNamed(id: string): (r: string)
    ensures r != ""
    ensures id != "" && id[0] != 0 as char ==> r == id
  {
    if id == "" || id[0] == 0 as char then "." else id
  }

  /** Path::Path(bytes, offset): the record at `offset`, copied out whole. The
    * copy of bytes past the end of the buffer is undefined behaviour in the
    * source; None stands for it. */
  function ParsePath(bytes: seq<byte>, offset: u32): (r: Option<Path>)
    ensures r.None? <==> offset >= |bytes| || |bytes| < offset + RecordLength(bytes[offset])
    ensures r.Some? ==> r.value.raw == bytes[offset..offset + RecordLength(bytes[offset])]
    ensures r.Some? ==> r.value.identifier != ""
  {
    if offset >= |bytes| then None
    else
      var size := bytes[offset];
      var n := RecordLength(size);
      if |bytes| < offset + n then None
      else
        Some(ReadPath(bytes[offset..offset + n], size))
  }

  /** The fields of a copied record: the extent at bytes 2-5, the parent number
    * at bytes 6-7 and the identifier after them. */
  function ReadPath(raw: seq<byte>, size: byte): (r: Path)
    requires 8 + size <= |raw|
    ensures r.raw == raw && r.identifier != ""
  {
    Widths();
    Path(raw, Util.ReadLe(raw, 2, 4), Util.ReadLe(raw, 6, 2), RootNamed(Identifier(raw, size)))
  }

  /** The constructor's steps: copy the record, then read its fields. */
  method NewPath(bytes: seq<byte>, offset: u32) returns (r: Option<Path>)
    ensures r == ParsePath(bytes, offset)
  {
    if offset >= |bytes| {
      return None;
    }
    var size := bytes[offset];
    var n := RecordLength(size);
    if |bytes| < offset + n {
      return None;
    }
    var raw := bytes[offset..offset + n];
    ghost var parsed := ParsePath(bytes, offset).value;
    assert parsed.raw == raw;
    var location := Helpers.Read(raw, 2, 4);
    var parent := Helpers.Read(raw, 6, 2);
    var identifier := Identifier(raw, size);
    if identifier == "" || identifier[0] == 0 as char {
      identifier := ".";
    }
    assert identifier == parsed.identifier;
    Widths();
    r := Some(Path(raw, location, parent, identifier));
  }

  /** Path::size: the length of the raw record, the stride of the path table. */
  function PathSize(p: Path): (r: nat)
    ensures r == |p.raw|
  {
    |p.raw|
  }

  /** Path::parent_index: the parent's number counts from 1, its index from 0;
    * the uint16_t result wraps, so parent number 0 gives 0xFFFF. */
  function ParentIndex(p: Path): (r: u16)
    ensures (r + 1) % 0x1_0000 == p.parent
  {
    (p.parent + 0xFFFF) % 0x1_0000
  }

  /** Path::location(blocksize): the extent's byte offset, as a uint32_t. */
  function PathLocation(p: Path, blockSize: u32): (r: u32)
    ensures p.location * blockSize < 0x1_0000_0000 ==> r == p.location * blockSize
  {
    Wrap32(p.location * blockSize)
  }

  /** The bytes of a path-table record with the given fields. */
  function EncodePath(location: u32, parent: u16, id: seq<byte>): (r: seq<byte>)
    requires |id| < 0x100
    ensures |r| == RecordLength(|id|)
  {
    [|id|, 0] + ToLE(location, 4) + ToLE(parent, 2) + id + (if |id| % 2 == 1 then [0] else [])
  }

  /** Parsing an encoded record gives back its bytes, its extent, its parent
    * number and its identifier (trimmed, "." when empty or NUL). */
  lemma PathRoundTrip(location: u32, parent: u16, id: seq<byte>)
    requires |id| < 0x100
    ensures var rec := EncodePath(location, parent, id);
      ParsePath(rec, 0) == Some(Path(rec, location, parent, RootNamed(Util.TrimRight(Chars(id)))))
  {
    var rec := EncodePath(location, parent, id);
    PathFields(location, parent, id);
    ParseWhole(rec, |id|);
  }

  /** A byte sequence that is exactly one record is parsed from all of it. */
  lemma ParseWhole(rec: seq<byte>, size: byte)
    requires |rec| == RecordLength(size) && rec[0] == size
    ensures ParsePath(rec, 0) == Some(ReadPath(rec, size))
  {
    assert rec[0..RecordLength(rec[0])] == rec;
  }

  /** A record is parsed from its own bytes alone: what lies around it in the
    * path table does not matter. */
  lemma PathLocal(bytes: seq<byte>, at: u32)
    requires at < |bytes| && at + RecordLength(bytes[at]) <= |bytes|
    ensures ParsePath(bytes, at) == ParsePath(bytes[at..at + RecordLength(bytes[at])], 0)
  {
    var rec := bytes[at..at + RecordLength(bytes[at])];
    assert rec[0] == bytes[at];
    assert rec[0..RecordLength(rec[0])] == rec;
  }

  /** The fields of an encoded record, read from the record alone. */
  lemma {:induction false} PathFields(location: u32, parent: u16, id: seq<byte>)
    requires |id| < 0x100
    ensures var raw := EncodePath(location, parent, id);
      raw[0] == |id| && Util.ReadLe(raw, 2, 4) == location && Util.ReadLe(raw, 6, 2) == parent &&
      Identifier(raw, |id|) == Util.TrimRight(Chars(id))
  {
    var raw := EncodePath(location, parent, id);
    var size: byte := |id|;
    ExtentField(location, parent, id);
    ParentField(location, parent, id);
    NameField(location, parent, id);
    IdentifierOf(raw, size, id);
  }

  /** The identifier is read from the bytes after the 8-byte header. */
  lemma IdentifierOf(raw: seq<byte>, size: byte, id: seq<byte>)
    requires 8 + size <= |raw| && raw[8..8 + size] == id
    ensures Identifier(raw, size) == Util.TrimRight(Chars(id))
  {
  }

  /** Bytes 2-5 of an encoded record are the extent, little-endian. */
  lemma ExtentField(location: u32, parent: u16, id: seq<byte>)
    requires |id| < 0x100
    ensures var raw := EncodePath(location, parent, id);
      raw[0] == |id| && Util.ReadLe(raw, 2, 4) == location
  {
    var a := [|id| as byte, 0] + ToLE(location, 4);
    var b := a + ToLE(parent, 2);
    var c := b + id;
    var pad: seq<byte> := if |id| % 2 == 1 then [0] else [];
    var raw := EncodePath(location, parent, id);
    assert raw == c + pad;
    PrefixSlice(c, pad, 2, 6);
    PrefixSlice(b, id, 2, 6);
    PrefixSlice(a, ToLE(parent, 2), 2, 6);
    SuffixSlice([|id| as byte, 0], ToLE(location, 4));
    assert raw[2..6] == ToLE(location, 4);
    Widths();
    LEOfToLE(location, 4);
    assert Util.ReadLe(raw, 2, 4) == LE(raw[2..6]);
  }

  /** Bytes 6-7 of an encoded record are the parent number, little-endian. */
  lemma ParentField(location: u32, parent: u16, id: seq<byte>)
    requires |id| < 0x100
    ensures Util.ReadLe(EncodePath(location, parent, id), 6, 2) == parent
  {
    var a := [|id| as byte, 0] + ToLE(location, 4);
    var b := a + ToLE(parent, 2);
    var c := b + id;
    var pad: seq<byte> := if |id| % 2 == 1 then [0] else [];
    var raw := EncodePath(location, parent, id);
    assert raw == c + pad;
    PrefixSlice(c, pad, 6, 8);
    PrefixSlice(b, id, 6, 8);
    SuffixSlice(a, ToLE(parent, 2));
    assert raw[6..8] == ToLE(parent, 2);
    Widths();
    LEOfToLE(parent, 2);
    assert Util.ReadLe(raw, 6, 2) == LE(raw[6..8]);
  }

  /** The identifier bytes of an encoded record are the ones encoded. */
  lemma NameField(location: u32, parent: u16, id: seq<byte>)
    requires |id| < 0x100
    ensures EncodePath(location, parent, id)[8..8 + |id|] == id
  {
    var b := [|id| as byte, 0] + ToLE(location, 4) + ToLE(parent, 2);
    var c := b + id;
    var pad: seq<byte> := if |id| % 2 == 1 then [0] else [];
    var raw := EncodePath(location, parent, id);
    assert raw == c + pad;
    PrefixSlice(c, pad, 8, 8 + |id|);
    SuffixSlice(b, id);
  }

  lemma PrefixSlice<T>(a: seq<T>, b: seq<T>, i: nat, j: nat)
    requires i <= j <= |a|
    ensures (a + b)[i..j] == a[i..j]
  {
  }

  lemma SuffixSlice<T>(a: seq<T>, b: seq<T>)
    ensures (a + b)[|a|..|a| + |b|] == b
  {
  }

  // ---------------------------------------------------------------------------
  // Entry (img_entry.cpp): a directory record

  /** EntryOffset: where each directory-record field starts. */
  const ExtentAt := 2
  const DataLengthAt := 10
  const FlagsAt := 25
  const IdLengthAt := 32
  const IdentifierAt := 33

  /** Attribute::Directory and Attribute::Associated, as values and as bits. */
  const Directory: byte := 2
  const Associated: byte := 4
  const DirectoryBit := 1
  const AssociatedBit := 2

  /** The fields the Entry constructor sets. */
  datatype Entry = Entry(size: byte, extendedSize: byte, location: u32, dataLength: u32, flags: byte,
                         fileUnitSize: byte, interleaveGap: byte, volumeSequence: u16, idLength: byte,
                         identifier: string, extension: string, realBlockSize: u32, logicalBlockSize: u32)

  /** The identifier as read: Util::read(data, 33, id length), which scans for a
    * NUL when the length is 0. The reads are unchecked, so None stands for one
    * past the end of the record. */
  function RawIdentifier(data: seq<byte>): (r: Option<string>)
    ensures r.Some? ==> |data| > IdLengthAt
  {
    if |data| <= IdLengthAt || |data| < IdentifierAt + data[IdLengthAt] then None
    else Util.ReadText(data, IdentifierAt, data[IdLengthAt])
  }

  /** The one-byte identifiers 0x00 and 0x01 name the directory itself and its
    * parent. */
  function Renamed(id: string): (r: string)
    ensures |id| != 1 ==> r == id
    ensures id == [0 as char] ==> r == "."
    ensures id == [1 as char] ==> r == ".."
    ensures |id| == 1 && id[0] as int > 1 ==> r == id
  {
    if |id| == 1 && id[0] == 1 as char then ".."
    else if |id| == 1 && id[0] == 0 as char then "."
    else id
  }

  /** A file identifier carries the version suffix ";1". */
  predicate Versioned(id: string)
  {
    |id| > 2 && id[|id| - 2..] == ";1"
  }

  /** std::string::find_last_of('.'). */
  function LastDot(s: string): (r: Option<nat>)
    ensures r.Some? ==> r.value < |s| && s[r.value] == '.' && forall i :: r.value < i < |s| ==> s[i] != '.'
    ensures r.None? ==> forall i :: 0 <= i < |s| ==> s[i] != '.'
  {
    if s == [] then None
    else if s[|s| - 1] == '.' then Some(|s| - 1)
    else LastDot(s[..|s| - 1])
  }

  /** The extension of a versioned identifier: the text between its last '.'
    * and ";1", or all of the name when it has no '.'. */
  function Extension(id: string): (r: string)
    requires Versioned(id)
    ensures |r| <= |id| - 2 && r == id[|id| - 2 - |r|..|id| - 2]
    ensures forall i :: 0 <= i < |r| ==> r[i] != '.'
    ensures |r| < |id| - 2 ==> id[|id| - 3 - |r|] == '.'
  {
    assert id[|id| - 2] == ';' && id[|id| - 1] == '1' by {
      assert id[|id| - 2..][0] == ';' && id[|id| - 2..][1] == '1';
    }
    var from := match LastDot(id) case Some(p) => p + 1 case None => 0;
    id[from..|id| - 2]
  }

  /** The extension of stem + "." + ext + ";1" is ext whenever ext has no '.'. */
  lemma ExtensionOf(stem: string, ext: string)
    requires forall i :: 0 <= i < |ext| ==> ext[i] != '.'
    ensures Versioned(stem + "." + ext + ";1") && Extension(stem + "." + ext + ";1") == ext
  {
    var id := stem + "." + ext + ";1";
    assert id[|id| - 2..] == ";1";
    var n := |id| - 2;
    assert id[n - 1 - |ext|] == '.';
    assert id[n - |ext|..n] == ext;
  }

  /** Entry::Entry(data, r_blocksize, l_blocksize): the fields at their
    * section 9.1 offsets; "\x00" and "\x01" renamed; a versioned identifier
    * marks an associated file, loses ";1" and yields an extension; any other
    * marks a directory. None stands for a read past the end of `data`. */
  function DecodeEntry(data: seq<byte>, realBlockSize: u32, logicalBlockSize: u32): (r: Option<Entry>)
    ensures r.Some? <==> RawIdentifier(data).Some?
    ensures r.Some? ==> r.value.idLength == data[IdLengthAt] && r.value.location == Util.ReadLe(data, ExtentAt, 4)
    ensures r.Some? ==> r.value.dataLength == Util.ReadLe(data, DataLengthAt, 4)
  {
    match RawIdentifier(data)
    case None => None
    case Some(raw) =>
      var id := Renamed(raw);
      Widths();
      var e := Entry(data[0], data[1], Util.ReadLe(data, ExtentAt, 4), Util.ReadLe(data, DataLengthAt, 4),
                     data[FlagsAt], data[26], data[27], Util.ReadLe(data, 28, 2), data[IdLengthAt],
                     id, "", realBlockSize, logicalBlockSize);
      if Versioned(id) then
        Some(e.(flags := Bits.OrByte(e.flags, Associated), extension := Extension(id), identifier := id[..|id| - 2]))
      else
        Some(e.(flags := Bits.OrByte(e.flags, Directory)))
  }

  /** The constructor's steps: read the fields, then rewrite the identifier and
    * OR in the flag. */
  method NewEntry(data: seq<byte>, realBlockSize: u32, logicalBlockSize: u32) returns (r: Option<Entry>)
    ensures r == DecodeEntry(data, realBlockSize, logicalBlockSize)
  {
    if |data| <= IdLengthAt || |data| < IdentifierAt + data[IdLengthAt] {
      return None;
    }
    var location := Helpers.Read(data, ExtentAt, 4);
    var dataLength := Helpers.Read(data, DataLengthAt, 4);
    var flags := data[FlagsAt];
    var volumeSequence := Helpers.Read(data, 28, 2);
    var idLength := data[IdLengthAt];
    var raw := Helpers.ReadString(data, IdentifierAt, idLength);
    if raw.None? {
      return None;
    }
    var identifier := raw.value;
    if |identifier| == 1 && identifier[0] == 1 as char {
      identifier := "..";
    } else if |identifier| == 1 && identifier[0] == 0 as char {
      identifier := ".";
    }
    assert identifier == Renamed(raw.value);
    var extension := "";
    if |identifier| > 2 && identifier[|identifier| - 2..] == ";1" {
      assert Versioned(identifier);
      flags := Bits.OrByte(flags, Associated);
      extension := Extension(identifier);
      identifier := identifier[..|identifier| - 2];
    } else {
      assert !Versioned(identifier);
      flags := Bits.OrByte(flags, Directory);
    }
    Widths();
    r := Some(Entry(data[0], data[1], location, dataLength, flags, data[26], data[27], volumeSequence,
                    idLength, identifier, extension, realBlockSize, logicalBlockSize));
  }

  /** Entry::is_directory(): the Directory attribute is set. */
  predicate IsDirectory(e: Entry)
  {
    Bits.Bit(e.flags, DirectoryBit)
  }

  /** Static Entry::is_file(raw): the identifier as read is versioned. None
    * stands for a read past the end of the record. */
  function IsFile(entry: seq<byte>): (r: Option<bool>)
    ensures r.Some? <==> RawIdentifier(entry).Some?
    ensures r == Some(true) ==> |RawIdentifier(entry).value| > 2
  {
    match RawIdentifier(entry)
    case None => None
    case Some(id) => Some(Versioned(id))
  }

  /** Static Entry::is_directory(raw): the negation of is_file. */
  function IsDirectoryRecord(entry: seq<byte>): (r: Option<bool>)
    ensures r.Some? <==> IsFile(entry).Some?
    ensures r.Some? ==> (r.value <==> !IsFile(entry).value)
  {
    match IsFile(entry)
    case None => None
    case Some(file) => Some(!file)
  }

  /** OR-ing an attribute into the flags sets its bit and keeps every other. */
  lemma OrFlag(flags: byte, attribute: byte, bit: nat)
    requires bit < 8 && attribute == Util.Pow2(bit)
    ensures Bits.Bit(Bits.OrByte(flags, attribute), bit)
    ensures forall k :: 0 <= k < 8 && Bits.Bit(flags, k) ==> Bits.Bit(Bits.OrByte(flags, attribute), k)
  {
    Bits.Pow2Eight();
    assert Bits.Bit(attribute, bit) by {
      assert Bits.High(attribute, bit) == 1;
    }
    Bits.BitOf(Bits.OrBit, flags, attribute, 8, bit);
    forall k | 0 <= k < 8 && Bits.Bit(flags, k)
      ensures Bits.Bit(Bits.OrByte(flags, attribute), k)
    {
      Bits.BitOf(Bits.OrBit, flags, attribute, 8, k);
    }
  }

  /** The constructor and the static predicates classify a record alike: a
    * record is_file exactly when the constructor marks it Associated and strips
    * ";1" (the extension then comes from the full name), and a record that is
    * is_directory by the static test is_directory() once constructed. The flags
    * read from byte 25 are all kept. */
  lemma EntryKind(data: seq<byte>, realBlockSize: u32, logicalBlockSize: u32)
    requires DecodeEntry(data, realBlockSize, logicalBlockSize).Some?
    ensures var e := DecodeEntry(data, realBlockSize, logicalBlockSize).value;
      IsFile(data).Some? &&
      (IsFile(data).value ==>
         Bits.Bit(e.flags, AssociatedBit) && Versioned(e.identifier + ";1") &&
         RawIdentifier(data).value == e.identifier + ";1" && e.extension == Extension(e.identifier + ";1")) &&
      (IsDirectoryRecord(data).value ==>
         IsDirectory(e) && e.extension == "" && e.identifier == Renamed(RawIdentifier(data).value)) &&
      (forall k :: 0 <= k < 8 && Bits.Bit(data[FlagsAt], k) ==> Bits.Bit(e.flags, k))
  {
    var raw := RawIdentifier(data).value;
    var e := DecodeEntry(data, realBlockSize, logicalBlockSize).value;
    assert Util.Pow2(1) == Directory && Util.Pow2(2) == Associated;
    if Versioned(raw) {
      assert Renamed(raw) == raw;
      OrFlag(data[FlagsAt], Associated, AssociatedBit);
      assert e.identifier + ";1" == raw;
    } else {
      assert !Versioned(Renamed(raw));
      OrFlag(data[FlagsAt], Directory, DirectoryBit);
    }
  }

  /** Entry::location(blocksize): the extent's byte offset, as a uint32_t. */
  function Location(e: Entry, blockSize: u32): (r: u32)
    ensures e.location * blockSize < 0x1_0000_0000 ==> r == e.location * blockSize
  {
    Wrap32(e.location * blockSize)
  }

  /** Entry::size: the length of the file's data. */
  function Size(e: Entry): (r: u32)
    ensures r == e.dataLength
  {
    e.dataLength
  }

  // ---------------------------------------------------------------------------
  // Entry::write: where the file's bytes go

  /** One write to the image: `count` bytes of the data from `from` on, at
    * stream position `at`. */
  datatype Chunk = Chunk(at: int, from: nat, count: nat)

  /** Entry::write as written: writes nothing unless the data has the entry's
    * size; then it writes a logical block while written < data.size() - l_bs
    * and the rest after the loop, seeking past only the junk at the end of each
    * sector. data.size() is a size_t, so for data shorter than one block the
    * bound wraps to nearly 2^64 and the uint32_t counter never reaches it; a
    * block size of 0 never advances. None stands for those loops, which never
    * end. */
  function WriteAsWritten(e: Entry, n: nat): (r: Option<seq<Chunk>>)
    ensures r.None? <==> n == e.dataLength && (n < e.logicalBlockSize || (e.logicalBlockSize == 0 && n > 0))
    ensures r == Some([]) <== n != e.dataLength
  {
    var lbs := e.logicalBlockSize;
    if n != e.dataLength then Some([])
    else if n < lbs || (lbs == 0 && n > 0) then None
    else
      var junk := Wrap32(e.realBlockSize - lbs - SectionHeaderSize);
      Some(Sweep(Wrap32(Location(e, e.realBlockSize) + SectionHeaderSize), lbs + junk, 0, n, lbs))
  }

  /** The loop of Entry::write as written, from `written` bytes on at stream
    * position `at`: every write moves the position by l_bs + junk. */
  function Sweep(at: int, stride: int, written: nat, n: nat, lbs: nat): (r: seq<Chunk>)
    requires written <= n && lbs <= n && (lbs > 0 || n == 0)
    decreases n - written
    ensures r != [] && r[0] == Chunk(at, written, if written + lbs < n then lbs else n - written)
    ensures forall j :: 0 <= j < |r| - 1 ==> r[j + 1].at == r[j].at + stride && r[j + 1].from == r[j].from + r[j].count
    ensures r[|r| - 1].from + r[|r| - 1].count == n
  {
    if written + lbs < n then [Chunk(at, written, lbs)] + Sweep(at + stride, stride, written + lbs, n, lbs)
    else [Chunk(at, written, n - written)]
  }

  /** The data areas of consecutive sectors, the first at stream position
    * `at`, for the data from `from` on: each takes one logical block (the last
    * one the rest). */
  function Sectors(at: int, realBlockSize: nat, lbs: nat, from: nat, n: nat): (r: seq<Chunk>)
    requires lbs > 0
    decreases n - from
    ensures r == [] <==> from >= n
    ensures r != [] ==> r[0].at == at && r[0].from == from
    ensures r != [] ==> r[|r| - 1].from + r[|r| - 1].count == n
  {
    if from >= n then []
    else
      var count := if n - from < lbs then n - from else lbs;
      [Chunk(at, from, count)] + Sectors(at + realBlockSize, realBlockSize, lbs, from + lbs, n)
  }

  /** Every block but the last is a whole logical block, the last the rest, and
    * each next block starts where the previous one ended, one sector further on. */
  predicate Shaped(r: seq<Chunk>, realBlockSize: nat, lbs: nat)
  {
    Counted(r, lbs) && Chained(r, realBlockSize, lbs)
  }

  predicate Counted(r: seq<Chunk>, lbs: nat)
  {
    forall j :: 0 <= j < |r| ==> 0 < r[j].count <= lbs
  }

  predicate Chained(r: seq<Chunk>, realBlockSize: nat, lbs: nat)
  {
    forall j :: 0 <= j < |r| - 1 ==>
      r[j].count == lbs && r[j + 1].from == r[j].from + lbs && r[j + 1].at == r[j].at + realBlockSize
  }

  lemma SectorsShape(at: int, realBlockSize: nat, lbs: nat, from: nat, n: nat)
    requires lbs > 0
    ensures Shaped(Sectors(at, realBlockSize, lbs, from, n), realBlockSize, lbs)
  {
    SectorsCounts(at, realBlockSize, lbs, from, n);
    SectorsChain(at, realBlockSize, lbs, from, n);
  }

  lemma {:induction false} SectorsCounts(at: int, realBlockSize: nat, lbs: nat, from: nat, n: nat)
    requires lbs > 0
    decreases n - from
    ensures Counted(Sectors(at, realBlockSize, lbs, from, n), lbs)
  {
    if from < n {
      SectorsCounts(at + realBlockSize, realBlockSize, lbs, from + lbs, n);
      var count := if n - from < lbs then n - from else lbs;
      CountedCons(Chunk(at, from, count), Sectors(at + realBlockSize, realBlockSize, lbs, from + lbs, n), lbs);
    }
  }

  lemma CountedCons(c: Chunk, rest: seq<Chunk>, lbs: nat)
    requires 0 < c.count <= lbs && Counted(rest, lbs)
    ensures Counted([c] + rest, lbs)
  {
    assert forall j :: 0 < j < |rest| + 1 ==> ([c] + rest)[j] == rest[j - 1];
  }

  lemma {:induction false} SectorsChain(at: int, realBlockSize: nat, lbs: nat, from: nat, n: nat)
    requires lbs > 0
    decreases n - from
    ensures Chained(Sectors(at, realBlockSize, lbs, from, n), realBlockSize, lbs)
  {
    if from < n {
      SectorsChain(at + realBlockSize, realBlockSize, lbs, from + lbs, n);
      var count := if n - from < lbs then n - from else lbs;
      ChainedCons(Chunk(at, from, count), Sectors(at + realBlockSize, realBlockSize, lbs, from + lbs, n), realBlockSize, lbs);
    }
  }

  lemma ChainedCons(c: Chunk, rest: seq<Chunk>, realBlockSize: nat, lbs: nat)
    requires Chained(rest, realBlockSize, lbs)
    requires rest != [] ==> c.count == lbs && rest[0].from == c.from + lbs && rest[0].at == c.at + realBlockSize
    ensures Chained([c] + rest, realBlockSize, lbs)
  {
    assert forall j :: 0 < j < |rest| + 1 ==> ([c] + rest)[j] == rest[j - 1];
  }

  /** Entry::write as evidently intended: nothing unless the data has the
    * entry's size; otherwise block k of the data goes to the data area of
    * sector location + k. None: a logical block size of 0 places no data. */
  function WritePlan(e: Entry, n: nat): (r: Option<seq<Chunk>>)
    ensures n != Size(e) ==> r == Some([])
    ensures r.None? <==> n == Size(e) && e.logicalBlockSize == 0
  {
    if n != Size(e) then Some([])
    else if e.logicalBlockSize == 0 then None
    else Some(Sectors(e.location * e.realBlockSize + SectionHeaderSize, e.realBlockSize, e.logicalBlockSize, 0, n))
  }

  /** The corrected write loop: one logical block per sector, each at the data
    * area of the next sector, until all of the data is placed. */
  method Write(e: Entry, n: nat) returns (r: Option<seq<Chunk>>)
    ensures r == WritePlan(e, n)
  {
    if n != e.dataLength {
      return Some([]);
    }
    var lbs, rbs := e.logicalBlockSize, e.realBlockSize;
    if lbs == 0 {
      return None;
    }
    var at := e.location * rbs + SectionHeaderSize;
    ghost var whole := Sectors(at, rbs, lbs, 0, n);
    var plan := [];
    var written: nat := 0;
    while written < n
      invariant written <= n
      invariant plan + Sectors(at, rbs, lbs, written, n) == whole
      decreases n - written
    {
      var count := if n - written < lbs then n - written else lbs;
      SectorsStep(at, rbs, lbs, written, n, count);
      Advance(plan, Chunk(at, written, count), Sectors(at + rbs, rbs, lbs, written + count, n), whole);
      plan := plan + [Chunk(at, written, count)];
      written := written + count;
      at := at + rbs;
    }
    assert Sectors(at, rbs, lbs, written, n) == [];
    assert plan == whole;
    r := Some(plan);
  }

  lemma Advance<T>(done: seq<T>, next: T, rest: seq<T>, whole: seq<T>)
    requires done + ([next] + rest) == whole
    ensures (done + [next]) + rest == whole
  {
  }

  lemma SectorsStep(at: int, realBlockSize: nat, lbs: nat, from: nat, n: nat, count: nat)
    requires 0 < lbs && from < n && count == if n - from < lbs then n - from else lbs
    ensures Sectors(at, realBlockSize, lbs, from, n) ==
      [Chunk(at, from, count)] + Sectors(at + realBlockSize, realBlockSize, lbs, from + count, n)
  {
    if count < lbs {
      assert Sectors(at + realBlockSize, realBlockSize, lbs, from + count, n) == [];
      assert Sectors(at + realBlockSize, realBlockSize, lbs, from + lbs, n) == [];
    }
  }

  /** Every byte of the data is placed, in order, block k in the data area of
    * sector location + k, and no block spills out of its data area when a
    * sector holds the header and a logical block. */
  predicate Placed(plan: seq<Chunk>, e: Entry, n: nat)
  {
    plan != [] && plan[0].from == 0 && plan[|plan| - 1].from + plan[|plan| - 1].count == n &&
    (forall j :: 0 <= j < |plan| ==> plan[j].at == (e.location + j) * e.realBlockSize + SectionHeaderSize) &&
    (forall j :: 0 <= j < |plan| ==> plan[j].from == j * e.logicalBlockSize) &&
    (e.logicalBlockSize + SectionHeaderSize <= e.realBlockSize ==>
       forall j :: 0 <= j < |plan| ==> plan[j].at + plan[j].count <= (e.location + j + 1) * e.realBlockSize)
  }

  lemma WritePlanPlaces(e: Entry, n: nat)
    requires n == Size(e) && e.logicalBlockSize > 0 && n > 0
    ensures WritePlan(e, n).Some? && Placed(WritePlan(e, n).value, e, n)
  {
    var start := e.location * e.realBlockSize + SectionHeaderSize;
    var plan := Sectors(start, e.realBlockSize, e.logicalBlockSize, 0, n);
    SectorsShape(start, e.realBlockSize, e.logicalBlockSize, 0, n);
    assert WritePlan(e, n) == Some(plan);
    ShapedPlaced(plan, e, n);
  }

  lemma ShapedPlaced(plan: seq<Chunk>, e: Entry, n: nat)
    requires plan != [] && plan[0].at == e.location * e.realBlockSize + SectionHeaderSize && plan[0].from == 0
    requires plan[|plan| - 1].from + plan[|plan| - 1].count == n
    requires Shaped(plan, e.realBlockSize, e.logicalBlockSize)
    ensures Placed(plan, e, n)
  {
    var rbs, lbs := e.realBlockSize, e.logicalBlockSize;
    forall j | 0 <= j < |plan|
      ensures plan[j].at == (e.location + j) * rbs + SectionHeaderSize && plan[j].from == j * lbs
    {
      ClosedForm(plan, e.location, rbs, lbs, j);
    }
    if lbs + SectionHeaderSize <= rbs {
      forall j | 0 <= j < |plan|
        ensures plan[j].at + plan[j].count <= (e.location + j + 1) * rbs
      {
        assert (e.location + j + 1) * rbs == (e.location + j) * rbs + rbs;
      }
    }
  }

  lemma {:induction false} ClosedForm(plan: seq<Chunk>, location: nat, rbs: nat, lbs: nat, j: nat)
    requires j < |plan| && plan[0].at == location * rbs + SectionHeaderSize && plan[0].from == 0
    requires Chained(plan, rbs, lbs)
    ensures plan[j].at == (location + j) * rbs + SectionHeaderSize && plan[j].from == j * lbs
  {
    if j > 0 {
      ClosedForm(plan, location, rbs, lbs, j - 1);
      assert (location + j) * rbs == (location + j - 1) * rbs + rbs;
      assert j * lbs == (j - 1) * lbs + lbs;
    }
  }

  /** As written, a file shorter than one logical block never finishes: the
    * loop bound data.size() - l_bs wraps. */
  lemma ShortFileNeverEnds()
    ensures var e := Entry(0, 0, 20, 100, 0, 0, 0, 1, 5, "A.B", "B", 2352, 2048);
      WriteAsWritten(e, 100).None? && WritePlan(e, 100) == Some([Chunk(20 * 2352 + 0x18, 0, 100)])
  {
    assert Sectors(49416, 2352, 2048, 2048, 100) == [];
    assert Sectors(47064, 2352, 2048, 0, 100) == [Chunk(47064, 0, 100)];
  }

  /** As written, the second block of a two-block file lands on the first byte
    * of sector 21 (its sync header), 0x18 bytes before that sector's data area. */
  lemma SecondBlockEarly()
    ensures var e := Entry(0, 0, 20, 4096, 0, 0, 0, 1, 5, "A.B", "B", 2352, 2048);
      WriteAsWritten(e, 4096) == Some([Chunk(20 * 2352 + 0x18, 0, 2048), Chunk(21 * 2352, 2048, 2048)]) &&
      WritePlan(e, 4096) == Some([Chunk(20 * 2352 + 0x18, 0, 2048), Chunk(21 * 2352 + 0x18, 2048, 2048)])
  {
    var e := Entry(0, 0, 20, 4096, 0, 0, 0, 1, 5, "A.B", "B", 2352, 2048);
    assert Location(e, 2352) == 47040;
    assert Wrap32(47040 + SectionHeaderSize) == 47064;
    assert Wrap32(2352 - 2048 - SectionHeaderSize) == 280;
    assert Sweep(49392, 2328, 2048, 4096, 2048) == [Chunk(49392, 2048, 2048)];
    assert Sweep(47064, 2328, 0, 4096, 2048) == [Chunk(47064, 0, 2048), Chunk(49392, 2048, 2048)];
    assert Sectors(51768, 2352, 2048, 4096, 4096) == [];
    assert Sectors(49416, 2352, 2048, 2048, 4096) == [Chunk(49416, 2048, 2048)];
    assert Sectors(47064, 2352, 2048, 0, 4096) == [Chunk(47064, 0, 2048), Chunk(49416, 2048, 2048)];
  }
}
