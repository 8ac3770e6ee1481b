// The GameCube disc file system table (extensions/gc): the 12-byte FST
// entry of GamecubeEntry, the directory-stack walk of GamecubeFST that gives
// every entry a path, and the entry's own copy of the Yaz0 decoder.

module GameCube {
  import opened Bytes
  import Util
  import Helpers
  import OrdMap
  import Yaz0

  /** GamecubeEntry::DirectorySize: the size of an FST entry. */
  const DirectorySize := 0x0C

  /** GamecubeEntry's fields: the directory flag, the name, the file or
    * parent offset, the entry's index in the FST, the payload (entry count
    * of the root, next index of a directory, length of a file), and the
    * parent and entry ids the walk assigns. */
  datatype Entry = Entry(directory: bool, name: string, offset: u32, listOffset: u32,
                         payload: u32, parentIndex: u32, entryIndex: u32)

  // ---------------------------------------------------------------------------
  // GamecubeEntry::initialize

  /** Util::read(data, at) with no size: the text up to the next NUL. The
    * unchecked reader reads data[at] first, so `at` must lie inside data. */
  function Text(data: seq<byte>, at: nat): (r: Option<string>)
    ensures r.Some? ==> at < |data|
  {
    if at >= |data| then None else Util.ReadText(data, at, 0)
  }

  /** The entry at `offset`, its name read from the string table at stOffset;
    * the root, read with stOffset 0, is named ".". The word reads are the
    * unchecked Util::read_big of helpers.h at uint32_t offsets, so None stands
    * for a read outside data. */
  function Decode(data: seq<byte>, offset: u32, stOffset: u32): (r: Option<Entry>)
    ensures r.Some? ==> r.value.listOffset * DirectorySize <= offset < (r.value.listOffset + 1) * DirectorySize
    ensures r.Some? ==> r.value.parentIndex == 0 && r.value.entryIndex == 0
    ensures r.Some? ==> offset < |data| && (r.value.directory <==> data[offset] == 1)
  {
    var at4, at8 := Wrap32(offset + 4), Wrap32(offset + 8);
    if |data| < offset + 4 || |data| < at4 as int + 4 || |data| < at8 as int + 4 then None
    else
      var nameOffset := Util.ReadBe(data, offset, 4) % 0x100_0000;
      var name := if stOffset == 0 then Some(".") else Text(data, Wrap32(stOffset + nameOffset));
      if name.None? then None
      else Some(Entry(data[offset] == 1, name.value, Util.ReadBe(data, at4, 4), offset / DirectorySize,
                      Util.ReadBe(data, at8, 4), 0, 0))
  }

  /** The 12 bytes of an FST entry: the type byte, the 24-bit name offset,
    * then the offset and payload words, all big-endian. */
  function Encode(kind: byte, nameOffset: nat, offset: u32, payload: u32): (r: seq<byte>)
    requires nameOffset < 0x100_0000
    ensures |r| == DirectorySize
  {
    [kind] + ToBE(nameOffset, 3) + ToBE(offset, 4) + ToBE(payload, 4)
  }

  /** Decoding an encoded entry gives back its fields: the directory flag is
    * set exactly for type byte 1, and the name is the string-table text at
    * stOffset + the name offset (or "." for the root). */
  lemma DecodeEncoded(data: seq<byte>, at: u32, st: u32, kind: byte, nameOffset: nat, offset: u32, payload: u32)
    requires nameOffset < 0x100_0000 && at + DirectorySize <= |data| && at + DirectorySize < 0x1_0000_0000
    requires data[at..at + DirectorySize] == Encode(kind, nameOffset, offset, payload)
    ensures var name := if st == 0 then Some(".") else Text(data, Wrap32(st + nameOffset));
      Decode(data, at, st) == if name.None? then None else Some(Entry(kind == 1, name.value, offset, at / DirectorySize, payload, 0, 0))
  {
    EncodedWords(data, at, kind, nameOffset, offset, payload);
    assert Wrap32(at + 4) == at + 4 && Wrap32(at + 8) == at + 8;
  }

  /** The words of an encoded entry read back as its fields. */
  lemma EncodedWords(data: seq<byte>, at: nat, kind: byte, nameOffset: nat, offset: u32, payload: u32)
    requires nameOffset < 0x100_0000 && at + DirectorySize <= |data|
    requires data[at..at + DirectorySize] == Encode(kind, nameOffset, offset, payload)
    ensures data[at] == kind && Util.ReadBe(data, at, 4) % 0x100_0000 == nameOffset
    ensures Util.ReadBe(data, at + 4, 4) == offset && Util.ReadBe(data, at + 8, 4) == payload
  {
    var head, mid, tail := [kind] + ToBE(nameOffset, 3), ToBE(offset, 4), ToBE(payload, 4);
    var rec := data[at..at + DirectorySize];
    assert rec == head + mid + tail && |head| == 4 && |mid| == 4;
    assert data[at] == rec[0] == head[0];
    Within(data, at, DirectorySize, 0, 4);
    assert rec[..4] == rec[0..4] == head;
    NameField(kind, nameOffset);
    Util.BeAt(data, at, 4, kind * 0x100_0000 + nameOffset);
    Within(data, at, DirectorySize, 4, 8);
    assert rec[4..8] == mid;
    Util.BeAt(data, at + 4, 4, offset);
    Within(data, at, DirectorySize, 8, 12);
    assert rec[8..12] == tail;
    Util.BeAt(data, at + 8, 4, payload);
  }

  /** A slice of a window is the matching slice of the whole. */
  lemma Within(data: seq<byte>, at: nat, n: nat, i: nat, j: nat)
    requires at + n <= |data| && i <= j <= n
    ensures data[at..at + n][i..j] == data[at + i..at + j]
  {
    var w := data[at..at + n][i..j];
    assert |w| == j - i;
    assert forall k | 0 <= k < j - i :: w[k] == data[at + i + k];
  }

  /** The first word of an entry: the type byte above the name offset. */
  lemma NameField(kind: byte, nameOffset: nat)
    requires nameOffset < 0x100_0000
    ensures var v := kind * 0x100_0000 + nameOffset;
      v < Pow256(4) && ToBE(v, 4) == [kind] + ToBE(nameOffset, 3) && v % 0x100_0000 == nameOffset
  {
    var v := kind * 0x100_0000 + nameOffset;
    assert Pow256(3) == 0x100_0000 && Pow256(4) == 0x1_0000_0000;
    var s := [kind] + ToBE(nameOffset, 3);
    BEOfToBE(nameOffset, 3);
    assert s[1..] == ToBE(nameOffset, 3);
    assert BE(s) == v;
    BEBound(s);
    ToBEOfBE(s);
    LowField(kind, nameOffset);
  }

  lemma LowField(kind: byte, nameOffset: nat)
    requires nameOffset < 0x100_0000
    ensures (kind * 0x100_0000 + nameOffset) % 0x100_0000 == nameOffset
  {
  }

  // ---------------------------------------------------------------------------
  // GamecubeEntry::operator==

  /** operator==: all seven fields agree (an entry is equal to itself). */
  function Same(a: Entry, b: Entry): (r: bool)
    ensures r <==> a == b
  {
    a.directory == b.directory && a.name == b.name && a.offset == b.offset &&
    a.listOffset == b.listOffset && a.entryIndex == b.entryIndex &&
    a.parentIndex == b.parentIndex && a.payload == b.payload
  }

  // ---------------------------------------------------------------------------
  // GamecubeEntry::yaz0_decode

  /** yaz0_decode(src, dst, uncompressedSize): decodeYaz0's loop without its
    * check that a run starts inside dst. There the source computes
    * copySource = dstPlace - (dist + 1) in uint32_t, which wraps, and reads
    * dst[copySource] far outside the buffer; decodeYaz0 terminates instead.
    * Both are failures, so the two decoders agree: false stands for any
    * undefined read or write, and a size of zero or less decodes nothing. */
  method Yaz0Decode(src: seq<byte>, dst: array<byte>, size: int) returns (ok: bool)
    modifies dst
    ensures size <= 0 ==> ok && dst[..] == old(dst[..])
    ensures size > 0 ==> match Yaz0.Inflate(src, size, dst.Length, Yaz0.DState(0, [], 0, 0))
      case Abort => !ok
      case Inflated(_, out) => ok && |out| <= dst.Length && dst[..|out|] == out
  {
    if size <= 0 {
      return true;
    }
    var r := Yaz0.DecodeYaz0(src, dst, size);
    ok := r.Some?;
  }

  /** A run that reaches back before the first byte fails: a code byte 0
    * followed by the run 10 00 (length 3, distance 0) at the very start. */
  lemma UnderflowFails()
    ensures Yaz0.Inflate([0x00, 0x10, 0x00], 3, 3, Yaz0.DState(0, [], 0, 0)) == Yaz0.Abort
  {
    var st := Yaz0.DState(1, [], 0x00, 8);
    assert Yaz0.ConsumeRun([0x00, 0x10, 0x00], 3, st).None?;
  }

  // ---------------------------------------------------------------------------
  // GamecubeFST::initialize

  /** ::toupper in the C locale. */
  function UpperChar(c: char): (r: char)
    ensures 'a' <= c <= 'z' ==> r as int == c as int - 32
    ensures !('a' <= c <= 'z') ==> r == c
  {
    if 'a' <= c <= 'z' then (c as int - 32) as char else c
  }

  /** std::transform(..., ::toupper): every char upper-cased, in place. */
  function Upper(s: string): (r: string)
    ensures |r| == |s| && forall k :: 0 <= k < |s| ==> r[k] == UpperChar(s[k])
  {
    if s == [] then [] else [UpperChar(s[0])] + Upper(s[1..])
  }

  /** The loop's locals: current_offset (`at`), current_index, current_dir,
    * current_path and last_file, with fst_map as built so far. */
  datatype Walk = Walk(at: nat, index: u32, dirs: seq<Entry>, paths: seq<string>, lastFile: string,
                       fst: OrdMap.Entries<Entry>)

  /** What indexing needs at entry i: as many paths as directories, the
    * current one among them, and no more directories than entries seen. */
  predicate Shape(w: Walk, i: nat)
  {
    0 < |w.dirs| == |w.paths| && w.at < |w.dirs| && |w.dirs| <= i
  }

  /** The while loop that moves back past finished directories: from `at`
    * down to the first directory that is the root or whose payload (the
    * index after its last child) is above i. */
  function Pop(dirs: seq<Entry>, at: nat, i: nat): (r: nat)
    requires at < |dirs|
    ensures r <= at
    ensures r == 0 || dirs[r].payload > i
    ensures forall k :: r < k <= at ==> dirs[k].payload <= i
    decreases at
  {
    if at > 0 && dirs[at].payload <= i then Pop(dirs, at - 1, i) else at
  }

  /** The directory an entry goes into: the one Pop reaches, or one further
    * back when nothing was popped and a file's upper-cased name sorts below
    * the previous file's. */
  function ParentOf(w: Walk, i: nat, e: Entry): (p: nat)
    requires Shape(w, i) && i < 0x1_0000_0000
    ensures p <= w.at
  {
    var back := Pop(w.dirs, w.at, i);
    if back == w.at && back > 0 && !e.directory && OrdMap.Less(Upper(e.name), w.lastFile) then back - 1 else back
  }

  /** The loop body for the decoded entry e at index i: a directory takes the
    * next id, becomes the current directory and gets the path of its parent
    * plus "/" + its name; a file is named under the current directory; the
    * entry is stored under its path, replacing an earlier one. */
  function Place(w: Walk, i: nat, e: Entry): (r: Walk)
    requires Shape(w, i) && i < 0x1_0000_0000
    ensures Shape(r, i + 1)
  {
    var parent := ParentOf(w, i, e);
    var path := w.paths[parent] + "/" + e.name;
    if e.directory then
      var e' := e.(entryIndex := w.index, parentIndex := parent);
      Walk(|w.dirs|, Wrap32(w.index + 1), w.dirs + [e'], w.paths + [path], "", OrdMap.Put(w.fst, path, e'))
    else
      var e' := e.(parentIndex := parent);
      Walk(parent, w.index, w.dirs, w.paths, Upper(e.name), OrdMap.Put(w.fst, path, e'))
  }

  /** The for loop from entry i on, reading entry i at i * 0x0C. */
  function Fill(data: seq<byte>, st: u32, i: nat, total: u32, w: Walk): (r: Option<Walk>)
    requires Shape(w, i)
    decreases total - i
  {
    if i >= total then Some(w)
    else match Decode(data, Wrap32(i * DirectorySize), st)
      case None => None
      case Some(e) => Fill(data, st, i + 1, total, Place(w, i, e))
  }

  /** initialize on a map already holding `fst`: the root at 0, its payload
    * the entry count, and the string table right after the entries. */
  function Load(data: seq<byte>, fst: OrdMap.Entries<Entry>): Option<Walk>
  {
    match Decode(data, 0, 0)
    case None => None
    case Some(root) =>
      Fill(data, Wrap32(root.payload * DirectorySize), 1, root.payload, Walk(0, 1, [root], ["."], "", fst))
  }

  // ---------------------------------------------------------------------------
  // What the walk keeps

  predicate Rooted(s: string)
  {
    |s| >= 2 && s[..2] == "./"
  }

  /** A stored entry: its key is its parent's path plus "/" + its name, and
    * it has a non-zero id exactly when it is a directory. */
  predicate Recorded(paths: seq<string>, k: string, e: Entry)
  {
    e.parentIndex < |paths| && k == paths[e.parentIndex] + "/" + e.name && (e.directory <==> e.entryIndex > 0)
  }

  function RecordedIn(paths: seq<string>): (string, Entry) -> bool
  {
    (k: string, e: Entry) => Recorded(paths, k, e)
  }

  /** The walk's invariant: the root's path is ".", every other directory
    * path is under it, directory slot k holds the directory with id k, and
    * the map is sorted with every entry recorded under its parent's path. */
  predicate WellFormed(w: Walk)
  {
    0 < |w.dirs| == |w.paths| && w.index as int == |w.dirs| &&
    w.paths[0] == "." && (forall k :: 0 < k < |w.paths| ==> Rooted(w.paths[k])) &&
    (forall k :: 0 < k < |w.dirs| ==> w.dirs[k].directory && w.dirs[k].entryIndex as int == k) &&
    OrdMap.Sorted(w.fst) && OrdMap.All(w.fst, RecordedIn(w.paths))
  }

  /** A child of any directory has a path under the root. */
  lemma ChildRooted(paths: seq<string>, j: nat, name: string)
    requires |paths| > 0 && paths[0] == "." && (forall k :: 0 < k < |paths| ==> Rooted(paths[k])) && j < |paths|
    ensures Rooted(paths[j] + "/" + name)
  {
    var s := paths[j] + "/" + name;
    if j == 0 {
      assert s[..2] == "./";
    } else {
      assert Rooted(paths[j]);
      assert s[..2] == paths[j][..2];
    }
  }

  /** Adding a path keeps every stored entry recorded. */
  lemma RecordedGrows(m: OrdMap.Entries<Entry>, paths: seq<string>, p: string)
    requires OrdMap.All(m, RecordedIn(paths))
    ensures OrdMap.All(m, RecordedIn(paths + [p]))
  {
    forall j | 0 <= j < |m| ensures Recorded(paths + [p], m[j].0, m[j].1) {
      assert Recorded(paths, m[j].0, m[j].1);
      assert (paths + [p])[m[j].1.parentIndex] == paths[m[j].1.parentIndex];
    }
  }

  /** A directory entry keeps the walk well formed. */
  lemma PlaceDirKeeps(w: Walk, i: nat, e: Entry)
    requires Shape(w, i) && i < 0xFFFF_FFFF && WellFormed(w) && e.directory
    ensures WellFormed(Place(w, i, e))
  {
    var parent := ParentOf(w, i, e);
    var path := w.paths[parent] + "/" + e.name;
    var e' := e.(entryIndex := w.index, parentIndex := parent);
    var paths' := w.paths + [path];
    ChildRooted(w.paths, parent, e.name);
    RecordedGrows(w.fst, w.paths, path);
    assert Recorded(paths', path, e');
    OrdMap.PutSorted(w.fst, path, e');
    OrdMap.PutAll(w.fst, path, e', RecordedIn(paths'));
  }

  /** A file entry keeps the walk well formed. */
  lemma PlaceFileKeeps(w: Walk, i: nat, e: Entry)
    requires Shape(w, i) && i < 0xFFFF_FFFF && WellFormed(w) && !e.directory && e.entryIndex == 0
    ensures WellFormed(Place(w, i, e))
  {
    var parent := ParentOf(w, i, e);
    var path := w.paths[parent] + "/" + e.name;
    var e' := e.(parentIndex := parent);
    assert Recorded(w.paths, path, e');
    OrdMap.PutSorted(w.fst, path, e');
    OrdMap.PutAll(w.fst, path, e', RecordedIn(w.paths));
  }

  lemma PlaceKeeps(w: Walk, i: nat, e: Entry)
    requires Shape(w, i) && i < 0xFFFF_FFFF && WellFormed(w) && e.entryIndex == 0
    ensures WellFormed(Place(w, i, e))
  {
    if e.directory {
      PlaceDirKeeps(w, i, e);
    } else {
      PlaceFileKeeps(w, i, e);
    }
  }

  /** The loop from entry i on keeps the walk well formed. */
  lemma {:induction false} FillKeeps(data: seq<byte>, st: u32, i: nat, total: u32, w: Walk)
    requires Shape(w, i) && WellFormed(w)
    ensures var r := Fill(data, st, i, total, w); r.Some? ==> WellFormed(r.value)
    decreases total - i
  {
    if i >= total {
      assert Fill(data, st, i, total, w) == Some(w);
    } else {
      var e := Decode(data, Wrap32(i * DirectorySize), st);
      if e.None? {
        assert Fill(data, st, i, total, w) == None;
      } else {
        var next := Place(w, i, e.value);
        PlaceKeeps(w, i, e.value);
        assert Fill(data, st, i, total, w) == Fill(data, st, i + 1, total, next);
        FillKeeps(data, st, i + 1, total, next);
      }
    }
  }

  /** Every path initialize stores is the path of its parent directory plus
    * "/" + its name, directories have ids 1, 2, 3, ... in table order and
    * files id 0, and the map stays sorted by path, each path once. */
  lemma LoadWellFormed(data: seq<byte>)
    ensures var r := Load(data, []); r.Some? ==> WellFormed(r.value)
  {
    var root := Decode(data, 0, 0);
    if root.Some? {
      var w := Walk(0, 1, [root.value], ["."], "", []);
      assert WellFormed(w);
      FillKeeps(data, Wrap32(root.value.payload * DirectorySize), 1, root.value.payload, w);
    }
  }

  /** Every key of a well-formed walk names a path under the root. */
  lemma KeysRooted(w: Walk, j: nat)
    requires WellFormed(w) && j < |w.fst|
    ensures Rooted(w.fst[j].0)
  {
    var e := w.fst[j].1;
    assert RecordedIn(w.paths)(w.fst[j].0, e);
    ChildRooted(w.paths, e.parentIndex, e.name);
  }

  /** The entry placed at step i is what the map holds under its path, and
    * every other path keeps its entry: a later duplicate path overwrites. */
  lemma PlaceStores(w: Walk, i: nat, e: Entry, k: string)
    requires Shape(w, i) && i < 0x1_0000_0000
    ensures var r := Place(w, i, e);
      var parent := ParentOf(w, i, e);
      var path := w.paths[parent] + "/" + e.name;
      OrdMap.Get(r.fst, k) ==
        if k == path then Some(if e.directory then e.(entryIndex := w.index, parentIndex := parent) else e.(parentIndex := parent))
        else OrdMap.Get(w.fst, k)
  {
    var parent := ParentOf(w, i, e);
    var path := w.paths[parent] + "/" + e.name;
    if e.directory {
      OrdMap.PutGet(w.fst, path, e.(entryIndex := w.index, parentIndex := parent), k);
    } else {
      OrdMap.PutGet(w.fst, path, e.(parentIndex := parent), k);
    }
  }

  /** A file whose upper-cased name sorts below the previous file's, when no
    * directory was finished, goes one directory back. */
  lemma OutOfOrderGoesBack(w: Walk, i: nat, e: Entry)
    requires Shape(w, i) && i < 0x1_0000_0000 && w.at > 0 && w.dirs[w.at].payload > i
    requires !e.directory && OrdMap.Less(Upper(e.name), w.lastFile)
    ensures ParentOf(w, i, e) == w.at - 1
  {
  }

  // ---------------------------------------------------------------------------
  // GamecubeFST

  class Fst {
    /** fst_map. */
    var fst: OrdMap.Entries<Entry>

    constructor()
      ensures fst == []
    {
      fst := [];
    }

    /** GamecubeFST::get: the entry stored under `path`; None where the source
      * throws GamecubeFileNotFoundException. */
    function Get(path: string): (r: Option<Entry>)
      reads this
      ensures r.Some? <==> exists j :: 0 <= j < |fst| && fst[j].0 == path
    {
      OrdMap.Get(fst, path)
    }

    /** GamecubeFST::initialize: the root, then entries 1 .. payload - 1. */
    method Initialize(data: seq<byte>) returns (r: Option<Walk>)
      modifies this
      ensures r == Load(data, old(fst))
      ensures r.Some? ==> fst == r.value.fst
    {
      var root := ReadEntry(data, 0, 0);
      if root.None? {
        return None;
      }
      var total := root.value.payload;
      var st := Wrap32(total * DirectorySize);
      var at, index, dirs, paths, lastFile := 0, 1, [root.value], ["."], "";
      var i := 1;
      ghost var want := Load(data, old(fst));
      while i < total
        invariant Shape(Walk(at, index, dirs, paths, lastFile, fst), i)
        invariant Fill(data, st, i, total, Walk(at, index, dirs, paths, lastFile, fst)) == want
        decreases total - i
      {
        var e := ReadEntry(data, Wrap32(i * DirectorySize), st);
        if e.None? {
          return None;
        }
        var w := PlaceEntry(i, e.value, at, index, dirs, paths, lastFile);
        at, index, dirs, paths, lastFile := w.at, w.index, w.dirs, w.paths, w.lastFile;
        i := i + 1;
      }
      return Some(Walk(at, index, dirs, paths, lastFile, fst));
    }

    /** The for loop's body after the entry is read: the id, the moves back,
      * the parent, and the store into fst_map. */
    method PlaceEntry(i: nat, e: Entry, at: nat, index: u32, dirs: seq<Entry>, paths: seq<string>, lastFile: string)
      returns (w: Walk)
      requires Shape(Walk(at, index, dirs, paths, lastFile, fst), i) && i < 0x1_0000_0000
      modifies this
      ensures w == Place(Walk(at, index, dirs, paths, lastFile, old(fst)), i, e) && fst == w.fst
    {
      var upper := Upper(e.name);
      var entry := e;
      var nextIndex := index;
      if e.directory {
        entry := entry.(entryIndex := index);
        nextIndex := Wrap32(index + 1);
      }
      var current := PopFinished(dirs, at, i);
      var popped := current < at;
      var last := if popped then "" else lastFile;
      if !popped && current > 0 && !e.directory && OrdMap.Less(upper, last) {
        current := current - 1;
      }
      entry := entry.(parentIndex := current);
      var path := paths[current] + "/" + e.name;
      fst := OrdMap.Put(fst, path, entry);
      if e.directory {
        return Walk(|dirs|, nextIndex, dirs + [entry], paths + [path], "", fst);
      }
      return Walk(current, nextIndex, dirs, paths, upper, fst);
    }

    /** `while (current_offset > 0 && current_dir[current_offset].payload() <= i)`. */
    method PopFinished(dirs: seq<Entry>, at: nat, i: nat) returns (r: nat)
      requires at < |dirs|
      ensures r == Pop(dirs, at, i)
    {
      r := at;
      while r > 0 && dirs[r].payload <= i
        invariant r <= at && Pop(dirs, r, i) == Pop(dirs, at, i)
      {
        r := r - 1;
      }
    }
  }

  /** GamecubeEntry(data, offset, st_offset): the three word reads, then the
    * name unless this is the root. */
  method ReadEntry(data: seq<byte>, offset: u32, stOffset: u32) returns (r: Option<Entry>)
    ensures r == Decode(data, offset, stOffset)
  {
    var at4, at8 := Wrap32(offset + 4), Wrap32(offset + 8);
    if |data| < offset + 4 || |data| < at4 as int + 4 || |data| < at8 as int + 4 {
      return None;
    }
    var directory := data[offset] == 1;
    var first := Helpers.ReadBig(data, offset, 4);
    var nameOffset := first % 0x100_0000;
    var off := Helpers.ReadBig(data, at4, 4);
    var payload := Helpers.ReadBig(data, at8, 4);
    var name := ".";
    if stOffset != 0 {
      var at := Wrap32(stOffset + nameOffset);
      if at >= |data| {
        return None;
      }
      var text := Helpers.ReadString(data, at, 0);
      if text.None? {
        return None;
      }
      name := text.value;
    }
    return Some(Entry(directory, name, off, offset / DirectorySize, payload, 0, 0));
  }
}
