// RARC archives (extensions/nintendo/rarc_file.h, rarc_file.cpp): the header,
// the node records at 0x40, the 0x14-byte file-entry table and the string
// table, parsed into the path -> entry map that RARCFile::corrupt walks.
//
// Every multi-byte field is read with the guarded util::read_big (0 past the
// end). Offsets are uint32_t sums and wrap. Names are read with util::read's
// NUL scan; a scan that runs off the end reads past the buffer (Undefined).
// The header copies 16 bytes at 16 with unchecked indexing, so a buffer
// shorter than 32 bytes is Undefined too.

module Rarc {
  import opened Bytes
  import Util
  import OrdMap

  // ---------------------------------------------------------------------------
  // File entries

  /** detail::FileEntry: the 0x14-byte record, plus the name and path the node
    * parser gives it. */
  datatype FileEntry = FileEntry(
    id: u16, unknown1: u16, unknown2: u16, nameOffset: u16,
    dataOffset: u32, size: u32, zero: u32,
    name: string, path: string)

  /** is_dir(); is_file() is its negation. */
  predicate IsDir(e: FileEntry)
  {
    e.id == 0xFFFF
  }

  function Be16(data: seq<byte>, at: nat): u16
  {
    Util.ReadBe(data, at, 2)
  }

  function Be32(data: seq<byte>, at: nat): u32
  {
    Util.ReadBe(data, at, 4)
  }

  /** util::read(data, at, 4): a fixed-size read never scans, so it has a value. */
  function Text4(data: seq<byte>, at: nat): string
  {
    match Util.ReadText(data, at, 4)
    case Some(s) => s
    case None => ""
  }

  /** FileEntry(data, offset): id at 0, name offset at 6, data offset at 8,
    * size at 12; the unknown fields at 2, 4 and 16. */
  function ReadEntry(data: seq<byte>, offset: u32): FileEntry
  {
    FileEntry(
      Be16(data, Wrap32(offset + 0)), Be16(data, Wrap32(offset + 2)), Be16(data, Wrap32(offset + 4)),
      Be16(data, Wrap32(offset + 6)), Be32(data, Wrap32(offset + 8)), Be32(data, Wrap32(offset + 12)),
      Be32(data, Wrap32(offset + 16)), "", "")
  }

  /** The record layout: a 0x14-byte record holding these big-endian fields
    * parses back into them. */
  lemma EntryLayout(data: seq<byte>, offset: u32, id: u16, nameOffset: u16, dataOffset: u32, size: u32)
    requires offset + 0x14 <= |data| && offset + 0x14 < 0x1_0000_0000
    requires data[offset..offset + 2] == ToBE(id, 2) && data[offset + 6..offset + 8] == ToBE(nameOffset, 2)
    requires data[offset + 8..offset + 12] == ToBE(dataOffset, 4) && data[offset + 12..offset + 16] == ToBE(size, 4)
    ensures var e := ReadEntry(data, offset);
      e.id == id && e.nameOffset == nameOffset && e.dataOffset == dataOffset && e.size == size
      && (IsDir(e) <==> id == 0xFFFF)
  {
    Util.BeAt(data, offset, 2, id);
    Util.BeAt(data, offset + 6, 2, nameOffset);
    Util.BeAt(data, offset + 8, 4, dataOffset);
    Util.BeAt(data, offset + 12, 4, size);
  }

  // ---------------------------------------------------------------------------
  // Header

  datatype Header = Header(
    magic: string, size: u32, unknown1: u32, dataStart: u32, unknown2: seq<byte>,
    nodeCount: u32, unknown3: u32, fileCount: u32, fileEntriesOffset: u32,
    unknown4: u32, stringTableOffset: u32, unknown5: nat)

  /** valid(): the magic is "RARC". */
  predicate Valid(h: Header)
  {
    h.magic == "RARC"
  }

  /** file_table(), string_table() and start(): the raw offsets are relative
    * to the end of the 0x20-byte header. */
  function FileTable(h: Header): u32
  {
    Wrap32(h.fileEntriesOffset + 0x20)
  }

  function StringTable(h: Header): u32
  {
    Wrap32(h.stringTableOffset + 0x20)
  }

  function Start(h: Header): u32
  {
    Wrap32(h.dataStart + 0x20)
  }

  /** Header(data): magic at 0, data start at 12, node count at 32, file-entry
    * table offset at 44, string-table offset at 52. */
  function ParseHeader(data: seq<byte>): (r: Res<Header>)
    ensures r.Ok? <==> |data| >= 32
  {
    if |data| < 32 then Undefined
    else
      Ok(Header(Text4(data, 0), Be32(data, 4), Be32(data, 8), Be32(data, 12), data[16..32],
                Be32(data, 32), Be32(data, 36), Be32(data, 40), Be32(data, 44),
                Be32(data, 48), Be32(data, 52), Util.ReadBe(data, 56, 8)))
  }

  /** valid() holds exactly when the archive begins with the bytes "RARC". */
  lemma ValidMagic(data: seq<byte>)
    requires 32 <= |data|
    ensures ParseHeader(data).Ok?
    ensures Valid(ParseHeader(data).value) <==> Chars(data[..4]) == "RARC"
  {
    assert ParseHeader(data).value.magic == Text4(data, 0);
    Util.ReadTextTag(data, 0, "RARC");
  }

  // ---------------------------------------------------------------------------
  // Nodes

  /** detail::Node: its record fields, the entries it recorded under their
    * paths, and the sub-directory nodes it parsed, in entry order. */
  datatype Node = Node(kind: string, nameOffset: u32, unknown: u16, count: u16, firstEntry: u32,
                       name: string, files: OrdMap.Entries<FileEntry>, subnodes: seq<Node>)

  /** The byte offset of entry i of a node whose first entry has index first. */
  function EntryOffset(h: Header, first: u32, i: nat): u32
  {
    Wrap32(first * 0x14 + FileTable(h) + i * 0x14)
  }

  /** Node(data, header, offset, parent): type at 0, name offset at 4, entry
    * count at 10, first-entry index at 12; its name from the string table. */
  function ParseNode(data: seq<byte>, h: Header, offset: u32, parent: string): (r: Res<Node>)
    decreases 0x1_0000_0000 - offset, 1, 0, 0
  {
    var kind := Text4(data, offset);
    var nameOffset := Be32(data, Wrap32(offset + 4));
    var count := Be16(data, Wrap32(offset + 10));
    var first := Be32(data, Wrap32(offset + 12));
    match Util.ReadText(data, Wrap32(StringTable(h) + nameOffset), 0)
    case None => Undefined
    case Some(name) =>
      match ParseEntries(data, h, offset, parent + name + "/", count, first, 0, 0, [], [])
      case Ok((files, subnodes)) =>
        Ok(Node(kind, nameOffset, Be16(data, Wrap32(offset + 8)), count, first, name, files, subnodes))
      case Undefined => Undefined
      case Unmodelled => Unmodelled
  }

  /** The loop over a node's entries from i on. `prefix` is parent + name + "/";
    * `subdirs` counts the directories recorded so far. */
  function ParseEntries(data: seq<byte>, h: Header, offset: u32, prefix: string, count: nat, first: u32,
                        i: nat, subdirs: nat, files: OrdMap.Entries<FileEntry>, subnodes: seq<Node>)
    : (r: Res<(OrdMap.Entries<FileEntry>, seq<Node>)>)
    decreases 0x1_0000_0000 - offset, 0, count - i, 1
  {
    if i >= count then Ok((files, subnodes))
    else
      var e := ReadEntry(data, EntryOffset(h, first, i));
      match Util.ReadText(data, Wrap32(StringTable(h) + e.nameOffset), 0)
      case None => Undefined
      case Some(entryName) =>
        if entryName == "." || entryName == ".." then
          ParseEntries(data, h, offset, prefix, count, first, i + 1, subdirs, files, subnodes)
        else
          Record(data, h, offset, prefix, count, first, i, subdirs, files, subnodes, e, entryName)
  }

  /** Entry i, named entryName, recorded under prefix + entryName; a directory
    * also parses the node `subdirs + 1` records past this one. */
  function Record(data: seq<byte>, h: Header, offset: u32, prefix: string, count: nat, first: u32,
                  i: nat, subdirs: nat, files: OrdMap.Entries<FileEntry>, subnodes: seq<Node>,
                  e: FileEntry, entryName: string)
    : (r: Res<(OrdMap.Entries<FileEntry>, seq<Node>)>)
    requires i < count
    decreases 0x1_0000_0000 - offset, 0, count - i, 0
  {
    var path := prefix + entryName;
    var named := e.(name := entryName, path := path);
    var files' := OrdMap.Put(files, path, named);
    if !IsDir(named) then
      ParseEntries(data, h, offset, prefix, count, first, i + 1, subdirs, files', subnodes)
    else
      var child := offset + (subdirs + 1) * 0x10;
      if child >= 0x1_0000_0000 then Unmodelled
      else match ParseNode(data, h, child, prefix)
        case Ok(n) => ParseEntries(data, h, offset, prefix, count, first, i + 1, subdirs + 1, files', subnodes + [n])
        case Undefined => Undefined
        case Unmodelled => Unmodelled
  }

  /** The node layout: a record with these big-endian fields has this entry
    * count and first-entry index, and its entry i is read at
    * file_table() + (first + i) * 0x14. */
  lemma NodeLayout(data: seq<byte>, h: Header, offset: u32, parent: string, count: u16, first: u32, i: nat)
    requires offset + 0x10 <= |data| && offset + 0x10 < 0x1_0000_0000
    requires data[offset + 10..offset + 12] == ToBE(count, 2) && data[offset + 12..offset + 16] == ToBE(first, 4)
    requires ParseNode(data, h, offset, parent).Ok?
    ensures var n := ParseNode(data, h, offset, parent).value; n.count == count && n.firstEntry == first
    ensures EntryOffset(h, first, i) == Wrap32(FileTable(h) + (first + i) * 0x14)
  {
    Util.BeAt(data, offset + 10, 2, count);
    Util.BeAt(data, offset + 12, 4, first);
  }

  // ---------------------------------------------------------------------------
  // What the parser records

  /** An entry as the node parser records it: under its own path, never "."
    * or "..", the path ending in "/" + name. */
  predicate Recorded(path: string, e: FileEntry)
  {
    path == e.path && e.name != "." && e.name != ".." &&
    |e.name| + 1 <= |path| && path[|path| - |e.name| - 1..] == "/" + e.name
  }

  function IsRecorded(): (string, FileEntry) -> bool
  {
    (path: string, e: FileEntry) => Recorded(path, e)
  }

  /** Entries named "." or ".." are skipped, and every recorded entry sits
    * under its path, which ends in "/" + its name. */
  lemma {:induction false} EntriesRecorded(data: seq<byte>, h: Header, offset: u32, prefix: string, count: nat, first: u32,
                                           i: nat, subdirs: nat, files: OrdMap.Entries<FileEntry>, subnodes: seq<Node>)
    requires |prefix| > 0 && prefix[|prefix| - 1] == '/' && OrdMap.All(files, IsRecorded())
    requires ParseEntries(data, h, offset, prefix, count, first, i, subdirs, files, subnodes).Ok?
    ensures OrdMap.All(ParseEntries(data, h, offset, prefix, count, first, i, subdirs, files, subnodes).value.0, IsRecorded())
    decreases count - i, 2
  {
    if i < count {
      var e := ReadEntry(data, EntryOffset(h, first, i));
      var entryName := Util.ReadText(data, Wrap32(StringTable(h) + e.nameOffset), 0).value;
      if entryName == "." || entryName == ".." {
        EntriesRecorded(data, h, offset, prefix, count, first, i + 1, subdirs, files, subnodes);
      } else {
        RecordRecorded(data, h, offset, prefix, count, first, i, subdirs, files, subnodes, e, entryName);
      }
    }
  }

  /** The step of EntriesRecorded for an entry the parser records. */
  lemma {:induction false} RecordRecorded(data: seq<byte>, h: Header, offset: u32, prefix: string, count: nat, first: u32,
                                          i: nat, subdirs: nat, files: OrdMap.Entries<FileEntry>, subnodes: seq<Node>,
                                          e: FileEntry, entryName: string)
    requires |prefix| > 0 && prefix[|prefix| - 1] == '/' && OrdMap.All(files, IsRecorded())
    requires i < count && entryName != "." && entryName != ".."
    requires Record(data, h, offset, prefix, count, first, i, subdirs, files, subnodes, e, entryName).Ok?
    ensures OrdMap.All(Record(data, h, offset, prefix, count, first, i, subdirs, files, subnodes, e, entryName).value.0, IsRecorded())
    decreases count - i, 1
  {
    if !IsDir(e) {
      FileRecorded(data, h, offset, prefix, count, first, i, subdirs, files, subnodes, e, entryName);
    } else {
      DirRecorded(data, h, offset, prefix, count, first, i, subdirs, files, subnodes, e, entryName);
    }
  }

  lemma {:induction false} FileRecorded(data: seq<byte>, h: Header, offset: u32, prefix: string, count: nat, first: u32,
                                          i: nat, subdirs: nat, files: OrdMap.Entries<FileEntry>, subnodes: seq<Node>,
                                          e: FileEntry, entryName: string)
    requires |prefix| > 0 && prefix[|prefix| - 1] == '/' && OrdMap.All(files, IsRecorded())
    requires i < count && entryName != "." && entryName != ".."
    requires Record(data, h, offset, prefix, count, first, i, subdirs, files, subnodes, e, entryName).Ok?
    requires !IsDir(e)
    ensures OrdMap.All(Record(data, h, offset, prefix, count, first, i, subdirs, files, subnodes, e, entryName).value.0, IsRecorded())
    decreases count - i, 0
  {
    PutRecorded(files, prefix, entryName, e);
    var files' := OrdMap.Put(files, prefix + entryName, e.(name := entryName, path := prefix + entryName));
    var next := i + 1;
    EntriesRecorded(data, h, offset, prefix, count, first, next, subdirs, files', subnodes);
  }

  lemma {:induction false} DirRecorded(data: seq<byte>, h: Header, offset: u32, prefix: string, count: nat, first: u32,
                                          i: nat, subdirs: nat, files: OrdMap.Entries<FileEntry>, subnodes: seq<Node>,
                                          e: FileEntry, entryName: string)
    requires |prefix| > 0 && prefix[|prefix| - 1] == '/' && OrdMap.All(files, IsRecorded())
    requires i < count && entryName != "." && entryName != ".."
    requires Record(data, h, offset, prefix, count, first, i, subdirs, files, subnodes, e, entryName).Ok?
    requires IsDir(e)
    ensures OrdMap.All(Record(data, h, offset, prefix, count, first, i, subdirs, files, subnodes, e, entryName).value.0, IsRecorded())
    decreases count - i, 0
  {
    PutRecorded(files, prefix, entryName, e);
    var files' := OrdMap.Put(files, prefix + entryName, e.(name := entryName, path := prefix + entryName));
    var n := RecordDir(data, h, offset, prefix, count, first, i, subdirs, files, subnodes, e, entryName);
    var next, dirs, subs := i + 1, subdirs + 1, subnodes + [n];
    EntriesRecorded(data, h, offset, prefix, count, first, next, dirs, files', subs);
  }

  /** Record for a directory: the parsed sub-node is appended and the loop
    * goes on with one more directory counted. */
  lemma RecordDir(data: seq<byte>, h: Header, offset: u32, prefix: string, count: nat, first: u32,
                  i: nat, subdirs: nat, files: OrdMap.Entries<FileEntry>, subnodes: seq<Node>,
                  e: FileEntry, entryName: string) returns (n: Node)
    requires i < count && IsDir(e)
    requires Record(data, h, offset, prefix, count, first, i, subdirs, files, subnodes, e, entryName).Ok?
    ensures offset + (subdirs + 1) * 0x10 < 0x1_0000_0000
    ensures ParseNode(data, h, offset + (subdirs + 1) * 0x10, prefix) == Ok(n)
    ensures Record(data, h, offset, prefix, count, first, i, subdirs, files, subnodes, e, entryName)
        == ParseEntries(data, h, offset, prefix, count, first, i + 1, subdirs + 1,
                        OrdMap.Put(files, prefix + entryName, e.(name := entryName, path := prefix + entryName)), subnodes + [n])
  {
    n := ParseNode(data, h, offset + (subdirs + 1) * 0x10, prefix).value;
  }

  /** Recording an entry under prefix + its name keeps every entry recorded. */
  lemma PutRecorded(files: OrdMap.Entries<FileEntry>, prefix: string, entryName: string, e: FileEntry)
    requires |prefix| > 0 && prefix[|prefix| - 1] == '/' && OrdMap.All(files, IsRecorded())
    requires entryName != "." && entryName != ".."
    ensures OrdMap.All(OrdMap.Put(files, prefix + entryName, e.(name := entryName, path := prefix + entryName)), IsRecorded())
  {
    PathEnds(prefix, entryName);
    OrdMap.PutAll(files, prefix + entryName, e.(name := entryName, path := prefix + entryName), IsRecorded());
  }

  lemma PathEnds(prefix: string, name: string)
    requires |prefix| > 0 && prefix[|prefix| - 1] == '/'
    ensures |name| + 1 <= |prefix + name|
    ensures (prefix + name)[|prefix + name| - |name| - 1..] == "/" + name
  {
    var path := prefix + name;
    assert path[|path| - |name| - 1..] == prefix[|prefix| - 1..] + name;
  }

  // ---------------------------------------------------------------------------
  // compact and the constructor

  /** RARCFile::compact(node, files): the sub-nodes depth first, each merged
    * into `files` with insert, then the node's own entries, also with insert:
    * the first entry inserted for a path wins. */
  function Compact(n: Node, files: OrdMap.Entries<FileEntry>): OrdMap.Entries<FileEntry>
    decreases n, 1
  {
    OrdMap.InsertAll(CompactAll(n.subnodes, files), n.files)
  }

  function CompactAll(subs: seq<Node>, files: OrdMap.Entries<FileEntry>): OrdMap.Entries<FileEntry>
    decreases subs, 0
  {
    if subs == [] then files
    else CompactAll(subs[1..], OrdMap.InsertAll(files, Compact(subs[0], files)))
  }

  /** What compact keeps: a path already in `files` keeps its entry, and a
    * path the node itself recorded and no sub-node did keeps the node's. */
  lemma {:induction false} CompactKeeps(n: Node, files: OrdMap.Entries<FileEntry>, path: string)
    ensures OrdMap.Get(files, path).Some? ==> OrdMap.Get(Compact(n, files), path) == OrdMap.Get(files, path)
    ensures OrdMap.Get(CompactAll(n.subnodes, files), path).None? ==>
      OrdMap.Get(Compact(n, files), path) == OrdMap.Get(n.files, path)
    decreases n, 1
  {
    CompactAllKeeps(n.subnodes, files, path);
    OrdMap.InsertAllGet(CompactAll(n.subnodes, files), n.files, path);
  }

  lemma {:induction false} CompactAllKeeps(subs: seq<Node>, files: OrdMap.Entries<FileEntry>, path: string)
    ensures OrdMap.Get(files, path).Some? ==> OrdMap.Get(CompactAll(subs, files), path) == OrdMap.Get(files, path)
    decreases subs, 0
  {
    if subs != [] {
      var merged := OrdMap.InsertAll(files, Compact(subs[0], files));
      OrdMap.InsertAllGet(files, Compact(subs[0], files), path);
      CompactAllKeeps(subs[1..], merged, path);
    }
  }

  /** The nodes i .. nodeCount - 1 of the header, at 0x40 + i * 0x10. */
  function ParseNodes(data: seq<byte>, h: Header, i: nat, nodes: seq<Node>): (r: Res<seq<Node>>)
    decreases h.nodeCount - i
  {
    if i >= h.nodeCount then Ok(nodes)
    else match ParseNode(data, h, Wrap32(0x40 + i * 0x10), "./")
      case Ok(n) => ParseNodes(data, h, i + 1, nodes + [n])
      case Undefined => Undefined
      case Unmodelled => Unmodelled
  }

  /** The constructor's merge: each node compacted, inserted in node order. */
  function Merge(nodes: seq<Node>, entries: OrdMap.Entries<FileEntry>): OrdMap.Entries<FileEntry>
    decreases |nodes|
  {
    if nodes == [] then entries else Merge(nodes[1..], OrdMap.InsertAll(entries, Compact(nodes[0], [])))
  }

  /** An archive as RARCFile's constructor leaves it. */
  datatype Archive = Archive(header: Header, entries: OrdMap.Entries<FileEntry>)

  function Parse(data: seq<byte>): (r: Res<Archive>)
    ensures r.Ok? ==> |data| >= 32 && ParseHeader(data) == Ok(r.value.header)
  {
    match ParseHeader(data)
    case Ok(h) =>
      (match ParseNodes(data, h, 0, [])
       case Ok(nodes) => Ok(Archive(h, Merge(nodes, [])))
       case Undefined => Undefined
       case Unmodelled => Unmodelled)
    case Undefined => Undefined
    case Unmodelled => Unmodelled
  }

  // ---------------------------------------------------------------------------
  // The bounds check of RARCFile::corrupt

  /** Where an entry's data starts: start() + offset(), a uint32_t sum. */
  function DataAt(h: Header, e: FileEntry): u32
  {
    Wrap32(Start(h) + e.dataOffset)
  }

  /** The check as written: offset + size is also a uint32_t sum, so a size
    * near 2^32 wraps it below the buffer size and the entry is not skipped. */
  predicate SkipAsWritten(len: nat, h: Header, e: FileEntry)
  {
    len < Wrap32(DataAt(h, e) + e.size)
  }

  /** The check as intended: skip every entry whose data does not lie inside
    * the buffer. */
  predicate Skip(len: nat, h: Header, e: FileEntry)
  {
    len < DataAt(h, e) + e.size
  }

  /** The two checks decide alike whenever the sum does not wrap. */
  lemma GuardsAgree(len: nat, h: Header, e: FileEntry)
    requires DataAt(h, e) + e.size < 0x1_0000_0000
    ensures SkipAsWritten(len, h, e) <==> Skip(len, h, e)
  {
  }

  /** A 0x40-byte archive whose one entry claims 0xFFFFFFF0 bytes at offset
    * 0x20: the wrapped sum is 0x10, the check as written keeps the entry, and
    * the copy it guards would read far past the end of the buffer. */
  lemma GuardWraps()
    ensures var h := Header("RARC", 0x40, 0, 0, [], 1, 0, 1, 0x20, 0, 0x40, 0);
      var e := FileEntry(0, 0, 0, 0, 0, 0xFFFF_FFF0, 0, "a", "./a");
      !SkipAsWritten(0x40, h, e) && Skip(0x40, h, e) && DataAt(h, e) + e.size > 0x40
  {
    var h := Header("RARC", 0x40, 0, 0, [], 1, 0, 1, 0x20, 0, 0x40, 0);
    var e := FileEntry(0, 0, 0, 0, 0, 0xFFFF_FFF0, 0, "a", "./a");
    assert Start(h) == 0x20;
    assert DataAt(h, e) == 0x20;
    assert Wrap32(0x20 + 0xFFFF_FFF0) == 0x10;
  }
}
