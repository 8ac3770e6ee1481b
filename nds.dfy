// The Nintendo DS extension (extensions/nds): the file system that maps the
// paths of the file name table (FNT) to the ROM windows the file allocation
// table (FAT) gives them, its JSON listing, and NDSCorruption::corrupt, which
// runs the corruption loop over the windows of the files the options name,
// asking the ARM valid_byte about every write.
//
// The source keeps offsets in uint32_t. Where an offset would pass 2^32 the
// model stops with Unmodelled; an unchecked index past the ROM's end, or into
// the directory list, gives Undefined.

module Nds {
  import opened Bytes
  import opened Config
  import Util
  import OrdMap
  import Strings
  import Engine
  import Arm

  /** NDSOffset::FileTableOffset and FileAllocationOffset: the header fields
    * holding the FNT and FAT offsets. */
  const FntField := 0x40
  const FatField := 0x48

  /** NDSEntry: where a file's bytes start in the ROM, and how many there are. */
  datatype Entry = Entry(offset: u32, size: u32)

  /** The state of NDSFileSystem::initialize: current_directory, the list of
    * directory paths indexed by directory number, and m_entries. */
  datatype Walk = Walk(dirs: seq<string>, entries: OrdMap.Entries<Entry>)

  // ---------------------------------------------------------------------------
  // NDSFileSystem::initialize

  /** The name of `len` bytes at `at` (util::read: "" past the end, trailing
    * blanks dropped). */
  function Name(rom: seq<byte>, at: nat, len: nat): string
    requires len > 0
  {
    Util.ReadText(rom, at, len).value
  }

  /** The insertion of a subdirectory's path at position pos of the list. */
  function InsertAt(dirs: seq<string>, pos: nat, d: string): (r: seq<string>)
    requires pos <= |dirs|
    ensures |r| == |dirs| + 1 && r[pos] == d
    ensures forall k :: 0 <= k < pos ==> r[k] == dirs[k]
    ensures forall k :: pos < k < |r| ==> r[k] == dirs[k - 1]
  {
    dirs[..pos] + [d] + dirs[pos..]
  }

  /** One pass of the while loop over a sub-table: where the loop stops, with
    * what, or where it goes on. */
  datatype Next =
    | Stop(result: Res<Walk>)
    | Go(at: nat, fileId: u32, subdirs: nat, w: Walk)

  /** A file of directory dirIndex recorded under its full path. */
  function AddFile(w: Walk, dirIndex: nat, name: string, e: Entry): (r: Walk)
    requires dirIndex < |w.dirs|
  {
    Walk(w.dirs, OrdMap.Put(w.entries, w.dirs[dirIndex] + "/" + name, e))
  }

  /** File fileId's FAT entry: its start and end offsets, as offset and size. */
  function FatEntry(rom: seq<byte>, fat: u32, fileId: u32): Entry
  {
    var start := Util.ReadLe(rom, Wrap32(fat + fileId * 8), 4);
    var end := Util.ReadLe(rom, Wrap32(fat + fileId * 8 + 4), 4);
    Entry(start, Wrap32(end as int - start))
  }

  /** A subdirectory of directory dirIndex (not the root), inserted at pos
    * after the parent's earlier subdirectories, under the parent's path. */
  function AddSubdir(w: Walk, dirIndex: nat, pos: nat, name: string): (r: Walk)
    requires dirIndex < |w.dirs| && pos <= |w.dirs|
    ensures r.entries == w.entries && |r.dirs| == |w.dirs| + 1 && r.dirs[pos] == w.dirs[dirIndex] + "/" + name
  {
    Walk(InsertAt(w.dirs, pos, w.dirs[dirIndex] + "/" + name), w.entries)
  }

  /** A subdirectory of the root, appended as "./" + name. */
  function AddRootDir(w: Walk, name: string): (r: Walk)
    ensures r.entries == w.entries && |r.dirs| == |w.dirs| + 1
    ensures r.dirs[..|w.dirs|] == w.dirs && r.dirs[|w.dirs|] == "./" + name
  {
    Walk(w.dirs + ["./" + name], w.entries)
  }

  /** The loop body at the length byte at `at`, for directory number
    * dirIndex, with the next file id `fileId` and `subdirs` subdirectories
    * seen so far. */
  function Record(rom: seq<byte>, fat: u32, at: nat, dirIndex: nat, fileId: u32, subdirs: nat, w: Walk): (n: Next)
    ensures n.Go? ==> at < n.at && at < |rom|
  {
    if at >= |rom| then Stop(Undefined)
    else
      var len := rom[at];
      if len == 0 then Stop(Ok(w))
      else if len < 0x80 then
        var next := at + len + 1;
        if dirIndex >= |w.dirs| then Stop(Undefined)
        else if next >= 0x1_0000_0000 then Stop(Unmodelled)
        else
          Go(next, Wrap32(fileId + 1), subdirs, AddFile(w, dirIndex, Name(rom, Wrap32(at + 1), len), FatEntry(rom, fat, fileId)))
      else if len == 0x80 then Stop(Unmodelled)  // the cursor never moves: the loop does not end
      else
        var n := len - 0x80;
        var next := at + n + 3;
        var name := Name(rom, Wrap32(at + 1), n);
        if next >= 0x1_0000_0000 then Stop(Unmodelled)
        else if dirIndex != 0 then
          var pos := dirIndex + subdirs + 1;
          if pos > |w.dirs| then Stop(Undefined)
          else Go(next, fileId, subdirs + 1, AddSubdir(w, dirIndex, pos, name))
        else Go(next, fileId, subdirs, AddRootDir(w, name))
  }

  /** The while loop over one directory's sub-table, from the length byte at `at`. */
  function SubTable(rom: seq<byte>, fat: u32, at: nat, dirIndex: nat, fileId: u32, subdirs: nat, w: Walk): (r: Res<Walk>)
    decreases |rom| - at
  {
    match Record(rom, fat, at, dirIndex, fileId, subdirs, w)
    case Stop(result) => result
    case Go(at', fileId', subdirs', w') => SubTable(rom, fat, at', dirIndex, fileId', subdirs', w')
  }

  /** The sub-table of directory i: main table entry i sits at fnt + 8i and
    * holds the sub-table's offset from the FNT and its first file id. */
  function Directory(rom: seq<byte>, fnt: u32, fat: u32, i: nat, w: Walk): Res<Walk>
  {
    var mte := Wrap32(fnt + i * 8);
    var offset := Util.ReadLe(rom, mte, 4);
    var startId := Util.ReadLe(rom, Wrap32(mte as int + 4), 2);
    SubTable(rom, fat, Wrap32(offset + fnt), i, startId, 0, w)
  }

  /** The sub-table walk of every directory of a ROM. */
  function DirectoryOf(rom: seq<byte>): (nat, Walk) -> Res<Walk>
  {
    var fnt := Util.ReadLe(rom, FntField, 4);
    var fat := Util.ReadLe(rom, FatField, 4);
    (i: nat, w: Walk) => Directory(rom, fnt, fat, i, w)
  }

  /** The loop over the main table entries from number i on, each walking
    * its directory's sub-table with `dir`. */
  function Tables(dir: (nat, Walk) -> Res<Walk>, i: nat, total: nat, w: Walk): (r: Res<Walk>)
    decreases total - i
  {
    if i >= total then Ok(w)
    else match dir(i, w)
      case Ok(w') => Tables(dir, i + 1, total, w')
      case Undefined => Undefined
      case Unmodelled => Unmodelled
  }

  /** initialize on a map already holding `entries`: the directory count is
    * the u16 at fnt + 6, and the list of directories starts as ["."]. */
  function Load(rom: seq<byte>, entries: OrdMap.Entries<Entry>): Res<Walk>
  {
    var fnt := Util.ReadLe(rom, FntField, 4);
    var total := Util.ReadLe(rom, Wrap32(fnt + 6), 2);
    Tables(DirectoryOf(rom), 0, total, Walk(["."], entries))
  }

  /** A path under the root directory. */
  predicate Rooted(s: string)
  {
    |s| >= 2 && s[..2] == "./"
  }

  predicate RootedKey(k: string, e: Entry)
  {
    Rooted(k)
  }

  /** What the walk keeps: directory 0 is ".", every other directory path is
    * under it, and the map is sorted with every recorded path under it. */
  predicate WellFormed(w: Walk)
  {
    |w.dirs| > 0 && w.dirs[0] == "." &&
    (forall k :: 0 < k < |w.dirs| ==> Rooted(w.dirs[k])) &&
    OrdMap.Sorted(w.entries) && OrdMap.All(w.entries, RootedKey)
  }

  /** A file or subdirectory of directory j has a path under the root. */
  lemma {:induction false} ChildRooted(dirs: seq<string>, j: nat, name: string)
    requires |dirs| > 0 && dirs[0] == "." && (forall k :: 0 < k < |dirs| ==> Rooted(dirs[k])) && j < |dirs|
    ensures Rooted(dirs[j] + "/" + name)
  {
    var s := dirs[j] + "/" + name;
    if j == 0 {
      assert s[..2] == "./";
    } else {
      assert Rooted(dirs[j]);
      assert s[..2] == dirs[j][..2];
    }
  }

  lemma AddFileKeeps(w: Walk, dirIndex: nat, name: string, e: Entry)
    requires WellFormed(w) && dirIndex < |w.dirs|
    ensures WellFormed(AddFile(w, dirIndex, name, e))
  {
    var path := w.dirs[dirIndex] + "/" + name;
    ChildRooted(w.dirs, dirIndex, name);
    OrdMap.PutSorted(w.entries, path, e);
    OrdMap.PutAll(w.entries, path, e, RootedKey);
  }

  lemma AddSubdirKeeps(w: Walk, dirIndex: nat, pos: nat, name: string)
    requires WellFormed(w) && dirIndex < |w.dirs| && 0 < pos <= |w.dirs|
    ensures WellFormed(AddSubdir(w, dirIndex, pos, name))
  {
    ChildRooted(w.dirs, dirIndex, name);
  }

  lemma AddRootDirKeeps(w: Walk, name: string)
    requires WellFormed(w)
    ensures WellFormed(AddRootDir(w, name))
  {
    assert ("./" + name)[..2] == "./";
  }

  /** The file case of the loop body keeps the walk well formed. */
  lemma RecordFileKeeps(rom: seq<byte>, fat: u32, at: nat, dirIndex: nat, fileId: u32, subdirs: nat, w: Walk)
    requires WellFormed(w) && at < |rom| && 0 < rom[at] < 0x80
    ensures var n := Record(rom, fat, at, dirIndex, fileId, subdirs, w); n.Go? ==> WellFormed(n.w)
  {
    var len := rom[at];
    if dirIndex < |w.dirs| && at + len + 1 < 0x1_0000_0000 {
      AddFileKeeps(w, dirIndex, Name(rom, Wrap32(at + 1), len), FatEntry(rom, fat, fileId));
    }
  }

  /** The directory case of the loop body keeps the walk well formed. */
  lemma RecordDirKeeps(rom: seq<byte>, fat: u32, at: nat, dirIndex: nat, fileId: u32, subdirs: nat, w: Walk)
    requires WellFormed(w) && at < |rom| && 0x80 < rom[at]
    ensures var n := Record(rom, fat, at, dirIndex, fileId, subdirs, w); n.Go? ==> WellFormed(n.w)
  {
    var name := Name(rom, Wrap32(at + 1), rom[at] - 0x80);
    if dirIndex != 0 {
      if dirIndex + subdirs + 1 <= |w.dirs| {
        AddSubdirKeeps(w, dirIndex, dirIndex + subdirs + 1, name);
      }
    } else {
      AddRootDirKeeps(w, name);
    }
  }

  lemma {:induction false} RecordKeeps(rom: seq<byte>, fat: u32, at: nat, dirIndex: nat, fileId: u32, subdirs: nat, w: Walk)
    requires WellFormed(w)
    ensures match Record(rom, fat, at, dirIndex, fileId, subdirs, w)
      case Stop(r) => r.Ok? ==> r.value == w
      case Go(_, _, _, w') => WellFormed(w')
  {
    if at < |rom| && 0 < rom[at] < 0x80 {
      RecordFileKeeps(rom, fat, at, dirIndex, fileId, subdirs, w);
    } else if at < |rom| && 0x80 < rom[at] {
      RecordDirKeeps(rom, fat, at, dirIndex, fileId, subdirs, w);
    }
  }

  lemma {:induction false} SubTableKeeps(rom: seq<byte>, fat: u32, at: nat, dirIndex: nat, fileId: u32, subdirs: nat, w: Walk)
    requires WellFormed(w)
    ensures var r := SubTable(rom, fat, at, dirIndex, fileId, subdirs, w); r.Ok? ==> WellFormed(r.value)
    decreases |rom| - at
  {
    RecordKeeps(rom, fat, at, dirIndex, fileId, subdirs, w);
    match Record(rom, fat, at, dirIndex, fileId, subdirs, w)
    case Stop(_) =>
    case Go(at', fileId', subdirs', w') =>
      SubTableKeeps(rom, fat, at', dirIndex, fileId', subdirs', w');
  }

  lemma {:induction false} DirectoryKeeps(rom: seq<byte>, fnt: u32, fat: u32, i: nat, w: Walk)
    requires WellFormed(w)
    ensures var r := Directory(rom, fnt, fat, i, w); r.Ok? ==> WellFormed(r.value)
  {
    var mte := Wrap32(fnt + i * 8);
    var offset := Util.ReadLe(rom, mte, 4);
    var startId := Util.ReadLe(rom, Wrap32(mte as int + 4), 2);
    SubTableKeeps(rom, fat, Wrap32(offset + fnt), i, startId, 0, w);
  }

  /** A directory walk that keeps the walk well formed. */
  ghost predicate KeepsWellFormed(dir: (nat, Walk) -> Res<Walk>)
  {
    forall i: nat, w: Walk :: WellFormed(w) && dir(i, w).Ok? ==> WellFormed(dir(i, w).value)
  }

  lemma {:induction false} TablesKeep(dir: (nat, Walk) -> Res<Walk>, i: nat, total: nat, w: Walk)
    requires WellFormed(w) && KeepsWellFormed(dir)
    ensures var r := Tables(dir, i, total, w); r.Ok? ==> WellFormed(r.value)
    decreases total - i
  {
    if i < total {
      var s := dir(i, w);
      if s.Ok? {
        TablesKeep(dir, i + 1, total, s.value);
      }
    }
  }

  /** Every path initialize records starts with "./", directory 0 stays ".",
    * and the map stays sorted by path, each path once. */
  lemma {:induction false} LoadWellFormed(rom: seq<byte>)
    ensures var r := Load(rom, []); r.Ok? ==> WellFormed(r.value)
  {
    var fnt := Util.ReadLe(rom, FntField, 4);
    var fat := Util.ReadLe(rom, FatField, 4);
    var total := Util.ReadLe(rom, Wrap32(fnt + 6), 2);
    var dir := DirectoryOf(rom);
    forall i: nat, w: Walk | WellFormed(w) && dir(i, w).Ok?
      ensures WellFormed(dir(i, w).value)
    {
      DirectoryKeeps(rom, fnt, fat, i, w);
    }
    TablesKeep(dir, 0, total, Walk(["."], []));
  }

  /** A file record in the root directory's sub-table is recorded under
    * "./" + its name, with its FAT window. */
  lemma {:induction false} RootFile(rom: seq<byte>, fat: u32, at: nat, fileId: u32, subdirs: nat, w: Walk)
    requires w.dirs != [] && w.dirs[0] == "."
    requires at < |rom| && 0 < rom[at] < 0x80 && at + rom[at] + 1 < 0x1_0000_0000
    ensures var len := rom[at];
      var start := Util.ReadLe(rom, Wrap32(fat + fileId * 8), 4);
      var end := Util.ReadLe(rom, Wrap32(fat + fileId * 8 + 4), 4);
      Record(rom, fat, at, 0, fileId, subdirs, w) ==
      Go(at + len + 1, Wrap32(fileId + 1), subdirs,
        Walk(w.dirs, OrdMap.Put(w.entries, "./" + Name(rom, Wrap32(at + 1), len), Entry(start, Wrap32(end as int - start)))))
  {
    var name := Name(rom, Wrap32(at + 1), rom[at]);
    assert w.dirs[0] + "/" + name == "./" + name;
  }

  /** An FNT length byte of 0x80 is where the source's walk never ends. */
  lemma {:induction false} ReservedLengthDiverges(rom: seq<byte>, fat: u32, at: nat, dirIndex: nat, fileId: u32, subdirs: nat, w: Walk)
    requires at < |rom| && rom[at] == 0x80
    ensures Record(rom, fat, at, dirIndex, fileId, subdirs, w) == Stop(Unmodelled)
  {
  }

  // ---------------------------------------------------------------------------
  // NDSFileSystem::to_json

  /** The "\"path\"," pieces the loop appends, in map order. */
  function Listing(m: OrdMap.Entries<Entry>): string
  {
    if m == [] then "" else "\"" + m[0].0 + "\"," + Listing(m[1..])
  }

  /** to_json as written: the listing with its last character cut, then "]}".
    * With no entry the cut character is the '['. */
  function JsonAsWritten(m: OrdMap.Entries<Entry>): string
  {
    var files := "{\"entries\":[" + Listing(m);
    files[..|files| - 1] + "]}"
  }

  /** The paths in map order, each in quotes. */
  function Quoted(m: OrdMap.Entries<Entry>): (r: seq<string>)
    ensures |r| == |m| && forall i :: 0 <= i < |m| ==> r[i] == "\"" + m[i].0 + "\""
  {
    if m == [] then [] else ["\"" + m[0].0 + "\""] + Quoted(m[1..])
  }

  /** The listing the loop evidently means: a JSON array of the paths. */
  function Json(m: OrdMap.Entries<Entry>): string
  {
    "{\"entries\":[" + Strings.Join(Quoted(m), ",") + "]}"
  }

  /** The pieces are the joined array plus one trailing comma. */
  lemma {:induction false} ListingJoin(m: OrdMap.Entries<Entry>)
    requires m != []
    ensures Listing(m) == Strings.Join(Quoted(m), ",") + ","
  {
    if |m| > 1 {
      ListingJoin(m[1..]);
      assert Quoted(m)[1..] == Quoted(m[1..]);
    }
  }

  /** With at least one path, to_json gives the JSON array of the paths, each
    * once, in map order. */
  lemma {:induction false} JsonAgrees(m: OrdMap.Entries<Entry>)
    requires m != []
    ensures JsonAsWritten(m) == Json(m)
  {
    ListingJoin(m);
    var files := "{\"entries\":[" + Listing(m);
    assert files == "{\"entries\":[" + Strings.Join(Quoted(m), ",") + ",";
    assert files[..|files| - 1] == "{\"entries\":[" + Strings.Join(Quoted(m), ",");
  }

  /** With no path, to_json cuts the '[' and gives text that is not JSON. */
  lemma {:induction false} EmptyJson()
    ensures JsonAsWritten([]) == "{\"entries\":]}"
    ensures Json([]) == "{\"entries\":[]}"
  {
  }

  lemma {:induction false} ListingSnoc(m: OrdMap.Entries<Entry>, e: (string, Entry))
    ensures Listing(m + [e]) == Listing(m) + "\"" + e.0 + "\","
  {
    if m != [] {
      assert (m + [e])[1..] == m[1..] + [e];
      ListingSnoc(m[1..], e);
    }
  }

  // ---------------------------------------------------------------------------
  // NDSFileSystem

  class FileSystem {
    /** m_entries. */
    var entries: OrdMap.Entries<Entry>

    constructor()
      ensures entries == []
    {
      entries := [];
    }

    /** NDSFileSystem::get: the entry recorded under `file`; None where the
      * source throws NDSFileNotFoundException. */
    function Get(file: string): (r: Option<Entry>)
      reads this
      ensures r.Some? <==> exists i :: 0 <= i < |entries| && entries[i].0 == file
    {
      OrdMap.Get(entries, file)
    }

    /** The loop body at `at`: reads the record, records a file in m_entries
      * or a directory in `dirs`. */
    method RecordAt(rom: seq<byte>, fat: u32, at: nat, dirIndex: nat, fileId: u32, subdirs: nat, dirs: seq<string>) returns (n: Next)
      modifies this
      ensures n == Record(rom, fat, at, dirIndex, fileId, subdirs, Walk(dirs, old(entries)))
      ensures n.Go? ==> entries == n.w.entries
      ensures n.Stop? ==> entries == old(entries)
    {
      if at >= |rom| {
        return Stop(Undefined);
      }
      var len := rom[at];
      if len == 0 {
        return Stop(Ok(Walk(dirs, entries)));
      }
      if len < 0x80 {
        n := FileAt(rom, fat, at, dirIndex, fileId, subdirs, dirs);
        return;
      }
      if len == 0x80 {
        return Stop(Unmodelled);
      }
      n := DirAt(rom, fat, at, dirIndex, fileId, subdirs, dirs);
    }

    /** A file record: its name, its FAT entry, and the path recorded in m_entries. */
    method FileAt(rom: seq<byte>, fat: u32, at: nat, dirIndex: nat, fileId: u32, subdirs: nat, dirs: seq<string>) returns (n: Next)
      requires at < |rom| && 0 < rom[at] < 0x80
      modifies this
      ensures n == Record(rom, fat, at, dirIndex, fileId, subdirs, Walk(dirs, old(entries)))
      ensures n.Go? ==> entries == n.w.entries
      ensures n.Stop? ==> entries == old(entries)
    {
      var len := rom[at];
      if dirIndex >= |dirs| {
        return Stop(Undefined);
      }
      if at + len + 1 >= 0x1_0000_0000 {
        return Stop(Unmodelled);
      }
      var name := Util.ReadString(rom, Wrap32(at + 1), len);
      var start := Util.Read(rom, Wrap32(fat + fileId * 8), 4);
      var end := Util.Read(rom, Wrap32(fat + fileId * 8 + 4), 4);
      entries := OrdMap.Put(entries, dirs[dirIndex] + "/" + name.value, Entry(start, Wrap32(end as int - start)));
      return Go(at + len + 1, Wrap32(fileId + 1), subdirs, Walk(dirs, entries));
    }

    /** A directory record: the subdirectory's path, inserted into `dirs`. */
    method DirAt(rom: seq<byte>, fat: u32, at: nat, dirIndex: nat, fileId: u32, subdirs: nat, dirs: seq<string>) returns (n: Next)
      requires at < |rom| && 0x80 < rom[at]
      ensures n == Record(rom, fat, at, dirIndex, fileId, subdirs, Walk(dirs, entries))
    {
      var k := rom[at] - 0x80;
      var name := Util.ReadString(rom, Wrap32(at + 1), k);
      if at + k + 3 >= 0x1_0000_0000 {
        return Stop(Unmodelled);
      }
      if dirIndex != 0 {
        if dirIndex + subdirs + 1 > |dirs| {
          return Stop(Undefined);
        }
        var d := InsertAt(dirs, dirIndex + subdirs + 1, dirs[dirIndex] + "/" + name.value);
        return Go(at + k + 3, fileId, subdirs + 1, Walk(d, entries));
      }
      return Go(at + k + 3, fileId, subdirs, Walk(dirs + ["./" + name.value], entries));
    }

    /** The while loop over one sub-table. */
    method ReadSubTable(rom: seq<byte>, fat: u32, at0: u32, dirIndex: nat, fileId0: u32, dirs0: seq<string>) returns (r: Res<Walk>)
      modifies this
      ensures r == SubTable(rom, fat, at0, dirIndex, fileId0, 0, Walk(dirs0, old(entries)))
      ensures r.Ok? ==> entries == r.value.entries
    {
      var at: nat := at0;
      var fileId := fileId0;
      var subdirs := 0;
      var dirs := dirs0;
      ghost var want := SubTable(rom, fat, at0, dirIndex, fileId0, 0, Walk(dirs0, old(entries)));
      while true
        invariant SubTable(rom, fat, at, dirIndex, fileId, subdirs, Walk(dirs, entries)) == want
        decreases |rom| - at
      {
        var n := RecordAt(rom, fat, at, dirIndex, fileId, subdirs, dirs);
        if n.Stop? {
          return n.result;
        }
        at, fileId, subdirs, dirs := n.at, n.fileId, n.subdirs, n.w.dirs;
      }
    }

    /** One main table entry: its fields, then its sub-table. */
    method ReadDirectory(rom: seq<byte>, fnt: u32, fat: u32, i: nat, dirs: seq<string>) returns (r: Res<Walk>)
      modifies this
      ensures r == Directory(rom, fnt, fat, i, Walk(dirs, old(entries)))
      ensures r.Ok? ==> entries == r.value.entries
    {
      var mte := Wrap32(fnt + i * 8);
      var offset := Util.Read(rom, mte, 4);
      var startId := Util.Read(rom, Wrap32(mte as int + 4), 2);
      r := ReadSubTable(rom, fat, Wrap32(offset + fnt), i, startId, dirs);
    }

    /** NDSFileSystem::initialize: one sub-table per main table entry. */
    method Initialize(rom: seq<byte>) returns (r: Res<Walk>)
      modifies this
      ensures r == Load(rom, old(entries))
      ensures r.Ok? ==> entries == r.value.entries
    {
      var fnt := Util.Read(rom, FntField, 4);
      var fat := Util.Read(rom, FatField, 4);
      var total := Util.Read(rom, Wrap32(fnt + 6), 2);
      ghost var dir := DirectoryOf(rom);
      var dirs := ["."];
      var i := 0;
      ghost var want := Load(rom, old(entries));
      while i < total
        invariant i <= total
        invariant Tables(dir, i, total, Walk(dirs, entries)) == want
        decreases total - i
      {
        ghost var w := Walk(dirs, entries);
        var s := ReadDirectory(rom, fnt, fat, i, dirs);
        assert s == dir(i, w);
        if !s.Ok? {
          return s;
        }
        dirs := s.value.dirs;
        i := i + 1;
      }
      return Ok(Walk(dirs, entries));
    }

    /** to_json, corrected for the empty map: "path", pieces in map order,
      * the last comma cut only when there is one. */
    method ToJson() returns (json: string)
      ensures json == Json(entries)
      ensures entries != [] ==> json == JsonAsWritten(entries)
    {
      var files := "{\"entries\":[";
      var i := 0;
      while i < |entries|
        invariant 0 <= i <= |entries|
        invariant files == "{\"entries\":[" + Listing(entries[..i])
      {
        ListingSnoc(entries[..i], entries[i]);
        assert entries[..i + 1] == entries[..i] + [entries[i]];
        files := files + "\"" + entries[i].0 + "\",";
        i := i + 1;
      }
      assert entries[..i] == entries;
      if entries == [] {
        json := files + "]}";
      } else {
        JsonAgrees(entries);
        json := files[..|files| - 1] + "]}";
      }
    }
  }

  // ---------------------------------------------------------------------------
  // NDSCorruption::corrupt

  /** The per-file loop as a pass: i starts at start + offset and runs while
    * i + step < offset + size and i - offset < end. Where those uint32_t sums
    * could wrap, the pass is Unmodelled. */
  function FilePass(info: Info, e: Entry): (r: Res<Engine.Pass>)
    ensures r.Ok? ==> r.value.limit <= e.offset + e.size && r.value.limit <= e.offset + info.end
    ensures r.Ok? && info.step > 0 ==> Engine.Terminates(r.value)
    ensures r.Ok? ==> r.value.kind == info.kind && r.value.variant == Engine.NdsLoop
  {
    var top := e.offset + e.size;
    if info.start + e.offset + info.step >= 0x1_0000_0000 || top + info.step > 0x1_0000_0000 then Unmodelled
    else
      var bySize := if top >= info.step then top - info.step else 0;
      var byEnd := e.offset + info.end;
      Ok(Engine.Pass(info.kind, info.value, info.step, if bySize < byEnd then bySize else byEnd, Engine.NdsLoop))
  }

  /** The loop test of the source and the pass's bound agree at every i the
    * loop reaches. */
  lemma {:induction false} FilePassBound(info: Info, e: Entry, i: nat)
    requires info.step > 0 && FilePass(info, e).Ok? && info.start + e.offset <= i && i + info.step < 0x1_0000_0000
    ensures i < FilePass(info, e).value.limit <==>
      Wrap32(i + info.step) < Wrap32(e.offset + e.size) && Wrap32(i - e.offset) < info.end
  {
  }

  /** The ROM after a run, the bytes drawn, and the corruption count. */
  datatype State = State(rom: seq<byte>, drawn: nat, hits: nat)

  /** A pass from `start`, its count added to the running total; Undefined
    * when it reads past the end of the ROM. */
  function Window(s: State, start: nat, p: Engine.Pass, valid: Engine.Validator, draw: nat -> byte): (r: Res<State>)
    requires Engine.Terminates(p)
    ensures r.Ok? ==> |r.value.rom| == |s.rom| && s.hits <= r.value.hits && s.drawn <= r.value.drawn
  {
    var o := Engine.Run(s.rom, start, p, valid, draw, s.drawn, 0);
    if o.fault then Undefined else Ok(State(o.rom, o.drawn, s.hits + o.hits))
  }

  /** The loop over one file's window. */
  function FileRun(s: State, e: Entry, info: Info, valid: Engine.Validator, draw: nat -> byte): (r: Res<State>)
    requires info.step > 0
    ensures r.Ok? ==> |r.value.rom| == |s.rom| && s.hits <= r.value.hits && s.drawn <= r.value.drawn
  {
    match FilePass(info, e)
    case Ok(p) => Window(s, info.start + e.offset, p, valid, draw)
    case _ => Unmodelled
  }

  /** A file entry that runs past the ROM's end, shifted by one: the indices
    * whose partner is in the ROM are shifted, and the rest are skipped. */
  lemma ShiftPastRomSkipped()
    ensures FileRun(State([1, 2, 3, 4], 0, 0), Entry(0, 8), Info("", Shift, 1, 0, 0x100, 1, false, ["f"]),
      Engine.AlwaysValid(), n => 0) == Ok(State([2, 3, 4, 4], 0, 3))
  {
    var p := Engine.Pass(Shift, 1, 1, 7, Engine.NdsLoop);
    var v, d := Engine.AlwaysValid(), (n: nat) => 0 as byte;
    assert Engine.Run([2, 3, 4, 4], 3, p, v, d, 0, 3) == Engine.Outcome([2, 3, 4, 4], 0, 3, false);
    assert Engine.Run([2, 3, 3, 4], 2, p, v, d, 0, 2) == Engine.Outcome([2, 3, 4, 4], 0, 3, false);
    assert Engine.Run([2, 2, 3, 4], 1, p, v, d, 0, 1) == Engine.Outcome([2, 3, 4, 4], 0, 3, false);
    assert Engine.Run([1, 2, 3, 4], 0, p, v, d, 0, 0) == Engine.Outcome([2, 3, 4, 4], 0, 3, false);
  }

  /** One file of the option's list: looked up, skipped when missing, and
    * otherwise corrupted over its window. */
  function FileStep(s: State, file: string, entries: OrdMap.Entries<Entry>, info: Info,
                    valid: Engine.Validator, draw: nat -> byte): (r: Res<State>)
    requires info.step > 0
    ensures r.Ok? ==> |r.value.rom| == |s.rom| && s.hits <= r.value.hits
    ensures OrdMap.Get(entries, file).None? ==> r == Ok(s)
  {
    match OrdMap.Get(entries, file)
    case None => Ok(s)
    case Some(e) => FileRun(s, e, info, valid, draw)
  }

  /** The loop over the option's files from files[0] on. */
  function CorruptFiles(s: State, files: seq<string>, entries: OrdMap.Entries<Entry>, info: Info,
                        valid: Engine.Validator, draw: nat -> byte): (r: Res<State>)
    requires info.step > 0
    ensures r.Ok? ==> |r.value.rom| == |s.rom| && s.hits <= r.value.hits
    decreases |files|
  {
    if files == [] then Ok(s)
    else match FileStep(s, files[0], entries, info, valid, draw)
      case Ok(s') => CorruptFiles(s', files[1..], entries, info, valid, draw)
      case Undefined => Undefined
      case Unmodelled => Unmodelled
  }

  /** NDSCorruption::corrupt: the new state and m_save. Nothing happens with
    * a step of 0 or no file. */
  function Corrupt(rom: seq<byte>, drawn: nat, entries: OrdMap.Entries<Entry>, info: Info,
                   valid: Engine.Validator, draw: nat -> byte): (r: Res<(State, bool)>)
    ensures info.step == 0 || info.files == [] ==> r == Ok((State(rom, drawn, 0), false))
    ensures r.Ok? ==> (r.value.1 <==> r.value.0.hits > 0)
  {
    if info.step == 0 || info.files == [] then Ok((State(rom, drawn, 0), false))
    else match CorruptFiles(State(rom, drawn, 0), info.files, entries, info, valid, draw)
      case Ok(s) => Ok((s, s.hits > 0))
      case Undefined => Undefined
      case Unmodelled => Unmodelled
  }

  /** Files the map does not hold change nothing. */
  lemma {:induction false} MissingSkipped(s: State, files: seq<string>, entries: OrdMap.Entries<Entry>, info: Info,
                                          valid: Engine.Validator, draw: nat -> byte)
    requires info.step > 0
    requires forall f :: f in files ==> OrdMap.Get(entries, f).None?
    ensures CorruptFiles(s, files, entries, info, valid, draw) == Ok(s)
    decreases |files|
  {
    if files != [] {
      assert files[0] in files;
      MissingSkipped(s, files[1..], entries, info, valid, draw);
    }
  }

  /** The window of a file the map holds: [offset, offset + size). */
  predicate InWindow(entries: OrdMap.Entries<Entry>, file: string, k: nat)
  {
    match OrdMap.Get(entries, file)
    case None => false
    case Some(e) => e.offset <= k < e.offset + e.size
  }

  /** A pass leaves every byte outside [start, limit) as it was. */
  lemma WindowFrame(s: State, start: nat, p: Engine.Pass, valid: Engine.Validator, draw: nat -> byte, k: nat)
    requires Engine.Terminates(p) && p.variant == Engine.NdsLoop && k < |s.rom| && (k < start || p.limit <= k)
    ensures var r := Window(s, start, p, valid, draw); r.Ok? ==> r.value.rom[k] == s.rom[k]
  {
    assert !Engine.Strided(k, start, p);
    Engine.RunFrame(s.rom, start, p, valid, draw, s.drawn, 0, k);
  }

  /** A file whose pass is modelled is corrupted by that pass over its window. */
  lemma FileRunWindow(s: State, e: Entry, info: Info, valid: Engine.Validator, draw: nat -> byte)
    requires info.step > 0 && FilePass(info, e).Ok?
    ensures FileRun(s, e, info, valid, draw) == Window(s, info.start + e.offset, FilePass(info, e).value, valid, draw)
  {
  }

  lemma {:induction false} FileStepFrame(s: State, file: string, entries: OrdMap.Entries<Entry>, info: Info,
                      valid: Engine.Validator, draw: nat -> byte, k: nat)
    requires info.step > 0 && k < |s.rom| && !InWindow(entries, file, k)
    ensures var r := FileStep(s, file, entries, info, valid, draw); r.Ok? ==> r.value.rom[k] == s.rom[k]
  {
    match OrdMap.Get(entries, file)
    case None =>
    case Some(e) =>
      var fp := FilePass(info, e);
      if fp.Ok? {
        var p, start := fp.value, info.start + e.offset;
        assert k < start || p.limit <= k;
        WindowFrame(s, start, p, valid, draw, k);
        FileRunWindow(s, e, info, valid, draw);
      }
  }

  /** A byte outside the window of every file the options name is left as it
    * was, whatever valid_byte says: the copying Swap only rewrites
    * rom[i + value] with its own value. */
  lemma {:induction false} CorruptFilesFrame(s: State, files: seq<string>, entries: OrdMap.Entries<Entry>, info: Info,
                                             valid: Engine.Validator, draw: nat -> byte, k: nat)
    requires info.step > 0 && k < |s.rom|
    requires forall f :: f in files ==> !InWindow(entries, f, k)
    ensures var r := CorruptFiles(s, files, entries, info, valid, draw); r.Ok? ==> r.value.rom[k] == s.rom[k]
    decreases |files|
  {
    if files != [] {
      assert files[0] in files;
      FileStepFrame(s, files[0], entries, info, valid, draw, k);
      var r := FileStep(s, files[0], entries, info, valid, draw);
      if r.Ok? {
        assert forall f :: f in files[1..] ==> f in files;
        CorruptFilesFrame(r.value, files[1..], entries, info, valid, draw, k);
      }
    }
  }

  lemma WindowShielded(s: State, start: nat, p: Engine.Pass, valid: Engine.Validator, draw: nat -> byte,
                       lo: nat, hi: nat, frozen: seq<byte> -> bool)
    requires Engine.Terminates(p) && Engine.AsksAboutWrites(p) && Engine.Shields(valid, lo, hi, frozen)
    requires lo <= hi <= |s.rom| && frozen(s.rom[lo..hi])
    ensures var r := Window(s, start, p, valid, draw); r.Ok? ==> r.value.rom[lo..hi] == s.rom[lo..hi]
  {
    Engine.RunShielded(s.rom, start, p, valid, draw, s.drawn, 0, lo, hi, frozen);
  }

  /** A stretch of the ROM that valid_byte shields while `frozen` holds of
    * it comes out of one file's loop unchanged. */
  lemma {:induction false} FileStepShielded(s: State, file: string, entries: OrdMap.Entries<Entry>, info: Info,
                                            valid: Engine.Validator, draw: nat -> byte, lo: nat, hi: nat, frozen: seq<byte> -> bool)
    requires info.step > 0 && Engine.Shields(valid, lo, hi, frozen)
    requires lo <= hi <= |s.rom| && frozen(s.rom[lo..hi])
    ensures var r := FileStep(s, file, entries, info, valid, draw); r.Ok? ==> r.value.rom[lo..hi] == s.rom[lo..hi]
  {
    var found := OrdMap.Get(entries, file);
    if found.Some? {
      var fp := FilePass(info, found.value);
      if fp.Ok? {
        WindowShielded(s, info.start + found.value.offset, fp.value, valid, draw, lo, hi, frozen);
      }
    }
  }

  lemma {:induction false} CorruptFilesShielded(s: State, files: seq<string>, entries: OrdMap.Entries<Entry>, info: Info,
                                                valid: Engine.Validator, draw: nat -> byte, lo: nat, hi: nat, frozen: seq<byte> -> bool)
    requires info.step > 0 && Engine.Shields(valid, lo, hi, frozen)
    requires lo <= hi <= |s.rom| && frozen(s.rom[lo..hi])
    ensures var r := CorruptFiles(s, files, entries, info, valid, draw); r.Ok? ==> r.value.rom[lo..hi] == s.rom[lo..hi]
    decreases |files|
  {
    if files != [] {
      FileStepShielded(s, files[0], entries, info, valid, draw, lo, hi, frozen);
      var r := FileStep(s, files[0], entries, info, valid, draw);
      if r.Ok? {
        CorruptFilesShielded(r.value, files[1..], entries, info, valid, draw, lo, hi, frozen);
      }
    }
  }

  /** With the ARM valid_byte, a word that holds a branch, load or store when
    * corrupt begins is never changed, in whichever file it lies. */
  lemma {:induction false} CorruptFilesKeepTransfers(s: State, files: seq<string>, entries: OrdMap.Entries<Entry>, info: Info,
                                                     draw: nat -> byte, a: nat)
    requires info.step > 0
    requires a % 4 == 0 && a + 4 <= |s.rom| && !Arm.Accepts(Util.ReadLe(s.rom, a, 4))
    ensures var r := CorruptFiles(s, files, entries, info, Arm.Validator(), draw);
      r.Ok? ==> r.value.rom[a..a + 4] == s.rom[a..a + 4]
  {
    Arm.ShieldsRefused(a);
    assert Arm.Refused()(s.rom[a..a + 4]);
    CorruptFilesShielded(s, files, entries, info, Arm.Validator(), draw, a, a + 4, Arm.Refused());
  }

  /** NDSCorruption::save writes nothing unless corrupt counted a write; the
    * name it writes to gets ".nds" appended unless it already ends so and is
    * longer than the extension. */
  function SaveName(save: bool, filename: string): (r: Option<string>)
    ensures r.Some? <==> save
    ensures r.Some? ==> |r.value| >= 4 && r.value[|r.value| - 4..] == ".nds"
    ensures r.Some? && |filename| > 4 && filename[|filename| - 4..] == ".nds" ==> r.value == filename
  {
    if !save then None
    else if |filename| <= 4 || filename[|filename| - 4..] != ".nds" then
      assert (filename + ".nds")[|filename|..] == ".nds";
      Some(filename + ".nds")
    else Some(filename)
  }

  /** Saving again under the name save picked keeps that name, for any name
    * but the empty one (which becomes ".nds", too short to keep). */
  lemma {:induction false} SaveNameIdempotent(filename: string)
    requires filename != ""
    ensures SaveName(true, SaveName(true, filename).value) == SaveName(true, filename)
  {
  }

  /** A pass over the ROM array, its count added to `hits`. */
  method RunWindow(c: Engine.Corruption, start: nat, p: Engine.Pass, hits: nat, valid: Engine.Validator, draw: nat -> byte)
    returns (r: Res<State>)
    requires Engine.Terminates(p)
    modifies c.rom, c`drawn
    ensures r == Window(State(old(c.rom[..]), old(c.drawn), hits), start, p, valid, draw)
    ensures r.Ok? ==> c.rom[..] == r.value.rom && c.drawn == r.value.drawn
  {
    var more, fault := c.RunPass(start, p, valid, draw);
    if fault {
      return Undefined;
    }
    return Ok(State(c.rom[..], c.drawn, hits + more));
  }

  /** The loop over one file's window, on the ROM array. */
  method CorruptWindow(c: Engine.Corruption, e: Entry, hits: nat, valid: Engine.Validator, draw: nat -> byte)
    returns (r: Res<State>)
    requires c.info.step > 0
    modifies c.rom, c`drawn
    ensures r == FileRun(State(old(c.rom[..]), old(c.drawn), hits), e, c.info, valid, draw)
    ensures r.Ok? ==> c.rom[..] == r.value.rom && c.drawn == r.value.drawn
  {
    var fp := FilePass(c.info, e);
    if !fp.Ok? {
      return Unmodelled;
    }
    r := RunWindow(c, c.info.start + e.offset, fp.value, hits, valid, draw);
  }

  /** One file of NDSCorruption::corrupt's loop: filesystem->get, skipped
    * when it finds nothing. */
  method CorruptFile(c: Engine.Corruption, fs: FileSystem, file: string, hits: nat, valid: Engine.Validator, draw: nat -> byte)
    returns (r: Res<State>)
    requires c.info.step > 0
    modifies c.rom, c`drawn
    ensures r == FileStep(State(old(c.rom[..]), old(c.drawn), hits), file, fs.entries, c.info, valid, draw)
    ensures r.Ok? ==> c.rom[..] == r.value.rom && c.drawn == r.value.drawn
  {
    var entry := fs.Get(file);
    if entry.None? {
      return Ok(State(c.rom[..], c.drawn, hits));
    }
    r := CorruptWindow(c, entry.value, hits, valid, draw);
  }

  /** NDSCorruption::corrupt on the ROM array, over the option's files:
    * the state it leaves and m_save. */
  method CorruptRom(c: Engine.Corruption, fs: FileSystem, valid: Engine.Validator, draw: nat -> byte) returns (r: Res<(State, bool)>)
    modifies c.rom, c`drawn
    ensures r == Corrupt(old(c.rom[..]), old(c.drawn), fs.entries, c.info, valid, draw)
    ensures r.Ok? ==> c.rom[..] == r.value.0.rom && c.drawn == r.value.0.drawn
  {
    var info := c.info;
    if info.step == 0 || |info.files| == 0 {
      return Ok((State(c.rom[..], c.drawn, 0), false));
    }
    ghost var want := CorruptFiles(State(c.rom[..], c.drawn, 0), info.files, fs.entries, info, valid, draw);
    var corruptions := 0;
    var k := 0;
    while k < |info.files|
      invariant 0 <= k <= |info.files| && c.info == info
      invariant CorruptFiles(State(c.rom[..], c.drawn, corruptions), info.files[k..], fs.entries, info, valid, draw) == want
    {
      assert info.files[k..][1..] == info.files[k + 1..];
      var step := CorruptFile(c, fs, info.files[k], corruptions, valid, draw);
      if !step.Ok? {
        return if step.Undefined? then Undefined else Unmodelled;
      }
      corruptions := step.value.hits;
      k := k + 1;
    }
    assert info.files[k..] == [];
    var s := State(c.rom[..], c.drawn, corruptions);
    return Ok((s, corruptions > 0));
  }
}
