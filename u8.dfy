// U8 archives (extensions/nintendo/u8_file.h and u8_file.cpp): the header, and
// the file-system table (FST) of 12-byte entries that U8File::corrupt walks.
//
// An entry is three big-endian uint32_t words. The first holds the type in its
// top byte (0 a file, 1 a directory) and a string-table offset in the low 24
// bits; for a file the other two are its data start and size, for a directory
// the parent index and the index of the first entry past it. The FST copies
// each 12-byte entry out with util::subset, which does no bounds check.

module U8 {
  import opened Bytes
  import Util

  /** U8File::match: the big-endian word at 0. */
  const Magic: u32 := 0x55AA382D

  /** FileEntry::EntrySize. */
  const EntrySize: nat := 12

  datatype Entry = Entry(typeAndOffset: u32, beginOrIndex: u32, sizeOrIndex: u32)

  /** type(): the top byte of the first word. */
  function Type(e: Entry): nat
  {
    e.typeAndOffset / 0x100_0000
  }

  /** string_offset(): the low 24 bits of the first word. */
  function StringOffset(e: Entry): nat
  {
    e.typeAndOffset % 0x100_0000
  }

  predicate IsFile(e: Entry)
  {
    Type(e) == 0
  }

  predicate IsDir(e: Entry)
  {
    Type(e) == 1
  }

  /** data_start() of a file, parent_index() of a directory. */
  function DataStart(e: Entry): u32
  {
    e.beginOrIndex
  }

  /** data_size() of a file, next_index() of a directory. */
  function DataSize(e: Entry): u32
  {
    e.sizeOrIndex
  }

  /** FileEntry(data, offset): the three words at 0, 4 and 8. */
  function ReadEntry(data: seq<byte>, offset: nat): Entry
  {
    Entry(Util.ReadBe(data, offset, 4), Util.ReadBe(data, offset + 4, 4), Util.ReadBe(data, offset + 8, 4))
  }

  /** The entry layout: the type is the entry's first byte and the string
    * offset the three bytes after it, so an entry is a file exactly when it
    * starts with a zero byte and a directory exactly when it starts with 1. */
  lemma EntryLayout(raw: seq<byte>)
    requires |raw| == EntrySize
    ensures Type(ReadEntry(raw, 0)) == raw[0]
    ensures StringOffset(ReadEntry(raw, 0)) == BE(raw[1..4])
    ensures IsFile(ReadEntry(raw, 0)) <==> raw[0] == 0
    ensures IsDir(ReadEntry(raw, 0)) <==> raw[0] == 1
  {
    var w := raw[..4];
    var word := ReadEntry(raw, 0).typeAndOffset;
    assert ToBE(word, 4) == w;
    BEOfToBE(word, 4);
    assert w[1..] == raw[1..4];
    assert BE(w) == w[0] * 0x100_0000 + BE(raw[1..4]);
    BEBound(raw[1..4]);
    Util.DivModOf(raw[0], BE(raw[1..4]), 0x100_0000);
  }

  /** u8::detail::Header: magic at 0, FST offset at 4, FST size at 8, data
    * offset at 12, each read with the guarded util::read_big. */
  datatype Header = Header(magic: u32, nodeOffset: u32, fstSize: u32, dataOffset: u32)

  function ParseHeader(data: seq<byte>): Header
  {
    Header(Util.ReadBe(data, 0, 4), Util.ReadBe(data, 4, 4), Util.ReadBe(data, 8, 4), Util.ReadBe(data, 12, 4))
  }

  /** util::subset(data, offset, 12) followed by FileEntry on the copy; the
    * copy past the end of the buffer is undefined. */
  function EntryAt(data: seq<byte>, offset: nat): (r: Res<Entry>)
    ensures r.Ok? <==> offset + EntrySize <= |data|
    ensures r.Ok? ==> r.value == ReadEntry(data, offset)
  {
    if offset + EntrySize > |data| then Undefined
    else
      var raw := Util.Subset(data, offset, EntrySize);
      SubsetEntry(data, offset, raw);
      Ok(ReadEntry(raw, 0))
  }

  /** Reading an entry from its copy reads the same words as reading it in place. */
  lemma SubsetEntry(data: seq<byte>, offset: nat, raw: seq<byte>)
    requires offset + EntrySize <= |data| && raw == data[offset..offset + EntrySize]
    ensures ReadEntry(raw, 0) == ReadEntry(data, offset)
  {
    assert raw[0..4] == data[offset..offset + 4];
    assert raw[4..8] == data[offset + 4..offset + 8];
    assert raw[8..12] == data[offset + 8..offset + 12];
    ReadSame(raw, 0, data, offset);
    ReadSame(raw, 4, data, offset + 4);
    ReadSame(raw, 8, data, offset + 8);
  }

  lemma ReadSame(a: seq<byte>, i: nat, b: seq<byte>, j: nat)
    requires i + 4 <= |a| && j + 4 <= |b| && a[i..i + 4] == b[j..j + 4]
    ensures Util.ReadBe(a, i, 4) == Util.ReadBe(b, j, 4)
  {
    BEOfToBE(Util.ReadBe(a, i, 4), 4);
    BEOfToBE(Util.ReadBe(b, j, 4), 4);
  }

  /** FST(data, offset): the root entry at offset, whose size word counts the
    * entries including itself, then entries 1 .. size - 1, each 12 bytes on
    * (a uint32_t offset, so it wraps). The result holds the entries after the
    * root, in table order. */
  function ParseFst(data: seq<byte>, offset: u32): (r: Res<seq<Entry>>)
    ensures r.Ok? ==> offset + EntrySize <= |data|
    ensures r.Ok? ==> |r.value| == (if DataSize(ReadEntry(data, offset)) == 0 then 0 else DataSize(ReadEntry(data, offset)) - 1)
  {
    match EntryAt(data, offset)
    case Ok(root) => FstFrom(data, offset, DataSize(root), 1, [])
    case Undefined => Undefined
    case Unmodelled => Unmodelled
  }

  /** The constructor's loop from i on, with the entries read so far. */
  function FstFrom(data: seq<byte>, offset: u32, n: nat, i: nat, acc: seq<Entry>): (r: Res<seq<Entry>>)
    requires 1 <= i && |acc| == i - 1
    ensures r.Ok? ==> |r.value| == (if n <= i then i - 1 else n - 1)
    ensures r.Ok? ==> r.value[..|acc|] == acc
    ensures r.Ok? ==> forall k :: |acc| <= k < |r.value| ==> EntryAt(data, Wrap32(offset + (k + 1) * EntrySize)) == Ok(r.value[k])
    decreases n - i
  {
    if i >= n then Ok(acc)
    else match EntryAt(data, Wrap32(offset + i * EntrySize))
      case Ok(e) => FstFrom(data, offset, n, i + 1, acc + [e])
      case Undefined => Undefined
      case Unmodelled => Unmodelled
  }

  /** FST::files(): the file entries, in table order. */
  function Files(entries: seq<Entry>): (r: seq<Entry>)
    ensures |r| <= |entries|
    ensures forall e :: e in r <==> e in entries && IsFile(e)
  {
    if entries == [] then []
    else if IsFile(entries[0]) then [entries[0]] + Files(entries[1..])
    else Files(entries[1..])
  }

  /** Files keeps order: it distributes over concatenation. */
  lemma {:induction false} FilesAppend(a: seq<Entry>, b: seq<Entry>)
    ensures Files(a + b) == Files(a) + Files(b)
  {
    if a == [] {
      assert a + b == b;
    } else {
      assert (a + b)[1..] == a[1..] + b;
      FilesAppend(a[1..], b);
    }
  }

  /** The loop of FST::files(). */
  method FilesOf(entries: seq<Entry>) returns (ret: seq<Entry>)
    ensures ret == Files(entries)
  {
    ret := [];
    var i := 0;
    while i < |entries|
      invariant 0 <= i <= |entries|
      invariant ret == Files(entries[..i])
    {
      FilesAppend(entries[..i], [entries[i]]);
      assert entries[..i + 1] == entries[..i] + [entries[i]];
      if IsFile(entries[i]) {
        ret := ret + [entries[i]];
      }
      i := i + 1;
    }
    assert entries[..i] == entries;
  }

  /** The constructor's loop over the table. */
  method ReadFst(data: seq<byte>, offset: u32) returns (r: Res<seq<Entry>>)
    ensures r == ParseFst(data, offset)
  {
    if offset + EntrySize > |data| {
      return Undefined;
    }
    var root := ReadEntry(data, offset);
    var n := DataSize(root);
    var entries: seq<Entry> := [];
    var i: nat := 1;
    ghost var want := ParseFst(data, offset);
    while i < n
      invariant 1 <= i && |entries| == i - 1
      invariant FstFrom(data, offset, n, i, entries) == want
      decreases n - i
    {
      var at := Wrap32(offset + i * EntrySize);
      if at + EntrySize > |data| {
        return Undefined;
      }
      entries := entries + [ReadEntry(data, at)];
      i := i + 1;
    }
    return Ok(entries);
  }
}
