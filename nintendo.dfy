// The Nintendo file corrupter (extensions/nintendo/nintendo.cpp and the
// corrupt functions of the container and J3D handlers).
//
// NintendoFile::start decompresses a Yaz0 or Yay0 buffer, then dispatches on
// the magic: RARC and U8 archives have each of their files corrupted by a
// nested start, J3D files have only their data blocks corrupted, and anything
// else goes through NintendoFile::corrupt's plain loop. The result is never
// compressed again. Exceptions a handler throws are caught in start, which
// keeps the buffer as it stands.
//
// A nested start can decompress a Yay0 file inside a U8 archive into a larger
// archive, so the recursion has no bound the model can see: every recursive
// function takes a fuel argument and gives Unmodelled when it runs out.

module Nintendo {
  import opened Bytes
  import opened Config
  import Util
  import Engine
  import Yaz0
  import Yay0
  import Rarc
  import U8
  import J3d

  /** A buffer as a handler leaves it: its bytes, the number of random bytes
    * drawn so far, and whether the handler threw part way. */
  datatype Step = Step(data: seq<byte>, drawn: nat, thrown: bool)

  /** util::read(data, at, 4) == tag. */
  predicate Tagged(data: seq<byte>, at: nat, tag: string)
  {
    Util.ReadText(data, at, 4) == Some(tag)
  }

  /** The two compressed formats start recognises. */
  predicate Compressed(data: seq<byte>)
  {
    Tagged(data, 0, "Yaz0") || Tagged(data, 0, "Yay0")
  }

  /** std::copy of part into data at `at`. */
  function Splice(data: seq<byte>, at: nat, part: seq<byte>): (r: seq<byte>)
    requires at + |part| <= |data|
    ensures |r| == |data|
    ensures forall k :: 0 <= k < |part| ==> r[at + k] == part[k]
    ensures forall k :: 0 <= k < |data| && !(at <= k < at + |part|) ==> r[k] == data[k]
  {
    data[..at] + part + data[at + |part|..]
  }

  // ---------------------------------------------------------------------------
  // NintendoFile::corrupt

  /** The loop of NintendoFile::corrupt: the options' range clipped to the
    * buffer, the uint32_t wrap guards of Shift and Swap, Swap copying rather
    * than exchanging, and one draw per random byte. */
  function LoopOf(info: Info, size: nat): Engine.Pass
  {
    Engine.BasePass(info, size, Engine.BaseLoop)
  }

  /** NintendoFile::corrupt on a whole buffer: the corrupted bytes and the
    * draws used. It never reads past the buffer; a loop that would not end
    * (a zero step) is outside the model. */
  function Corrupt(data: seq<byte>, info: Info, draw: nat -> byte, drawn: nat): (r: Res<(seq<byte>, nat)>)
    ensures !r.Undefined?
    ensures r.Unmodelled? <==> !Engine.Terminates(LoopOf(info, |data|))
    ensures r.Ok? ==> |r.value.0| == |data| && drawn <= r.value.1
  {
    var p := LoopOf(info, |data|);
    if !Engine.Terminates(p) then Unmodelled
    else
      var o := Engine.Run(data, info.start, p, Engine.AlwaysValid(), draw, drawn, 0);
      Engine.NoFault(data, info.start, p, Engine.AlwaysValid(), draw, drawn, 0);
      if o.fault then Undefined else Ok((o.rom, o.drawn))
  }

  /** Apart from Swap, which also writes i + value, the loop changes only the
    * positions it visits: start, start + step, ... below the end. */
  lemma CorruptFrame(data: seq<byte>, info: Info, draw: nat -> byte, drawn: nat, k: nat)
    requires info.kind != Swap && Engine.Terminates(LoopOf(info, |data|))
    requires k < |data| && !Engine.Strided(k, info.start, LoopOf(info, |data|))
    ensures Corrupt(data, info, draw, drawn).value.0[k] == data[k]
  {
    Engine.RunFrame(data, info.start, LoopOf(info, |data|), Engine.AlwaysValid(), draw, drawn, 0, k);
  }

  /** A corruption that looks only at the byte it rewrites (Add, Set, the
    * rotations and the logical operations) rewrites every visited byte. */
  lemma CorruptPointwise(data: seq<byte>, info: Info, draw: nat -> byte, drawn: nat, k: nat)
    requires Engine.IsPointwise(info.kind) && Engine.Terminates(LoopOf(info, |data|)) && k < |data|
    ensures Corrupt(data, info, draw, drawn).value.0[k] ==
      if Engine.Strided(k, info.start, LoopOf(info, |data|)) then Engine.PointOp(info.kind, info.value, data[k]) else data[k]
  {
    Engine.RunPointwise(data, info.start, LoopOf(info, |data|), draw, drawn, 0, k);
  }

  /** Random draws exactly one byte per visited position (no retry). */
  lemma CorruptDraws(data: seq<byte>, info: Info, draw: nat -> byte, drawn: nat)
    requires info.kind == Random && Engine.Terminates(LoopOf(info, |data|))
    ensures Corrupt(data, info, draw, drawn).value.1 == drawn + Engine.Visits(info.start, LoopOf(info, |data|))
  {
    Engine.EveryVisitCounts(data, info.start, LoopOf(info, |data|), draw, drawn, 0);
  }

  // ---------------------------------------------------------------------------
  // The J3D handlers

  /** Copy data[begin, end) out (std::vector's range constructor), corrupt
    * the copy and copy it back. A window whose begin lies past its end is a
    * reversed range, undefined behaviour by the C++ standard; it is modelled
    * as libstdc++ behaves, the constructor throwing before anything changes. */
  function CorruptWindow(data: seq<byte>, w: J3d.Window, info: Info, draw: nat -> byte, drawn: nat): (r: Res<Step>)
    ensures r.Undefined? <==> w.begin <= w.end && |data| < w.end
    ensures r.Ok? ==> |r.value.data| == |data| && drawn <= r.value.drawn
    ensures r.Ok? ==> (r.value.thrown <==> w.begin > w.end)
    ensures r.Ok? && r.value.thrown ==> r.value.data == data
    ensures r.Ok? ==> forall k :: 0 <= k < |data| && !(w.begin <= k < w.end) ==> r.value.data[k] == data[k]
  {
    if w.begin > w.end then Ok(Step(data, drawn, true))
    else if |data| < w.end then Undefined
    else match Corrupt(data[w.begin..w.end], info, draw, drawn)
      case Ok((sub, n)) => Ok(Step(Splice(data, w.begin, sub), n, false))
      case Undefined => Undefined
      case Unmodelled => Unmodelled
  }

  /** Position k lies in none of the windows. */
  predicate Outside(k: nat, ws: seq<J3d.Window>)
  {
    forall j :: 0 <= j < |ws| ==> !(ws[j].begin <= k < ws[j].end)
  }

  /** The windows one after the other, stopping at the first that throws. */
  function CorruptWindows(data: seq<byte>, ws: seq<J3d.Window>, info: Info, draw: nat -> byte, drawn: nat): (r: Res<Step>)
    ensures r.Ok? ==> |r.value.data| == |data| && drawn <= r.value.drawn
    ensures r.Ok? ==> forall k :: 0 <= k < |data| && Outside(k, ws) ==> r.value.data[k] == data[k]
    ensures r.Undefined? ==> exists j :: 0 <= j < |ws| && ws[j].begin <= ws[j].end && |data| < ws[j].end
    decreases |ws|
  {
    if ws == [] then Ok(Step(data, drawn, false))
    else match CorruptWindow(data, ws[0], info, draw, drawn)
      case Ok(s) =>
        if s.thrown then Ok(s)
        else
          var rest := CorruptWindows(s.data, ws[1..], info, draw, s.drawn);
          assert forall k: nat :: Outside(k, ws) ==> Outside(k, ws[1..]) by {
            forall k: nat | Outside(k, ws) ensures Outside(k, ws[1..]) {
              forall j | 0 <= j < |ws| - 1 ensures !(ws[1..][j].begin <= k < ws[1..][j].end) {
                assert ws[1..][j] == ws[j + 1];
              }
            }
          }
          assert rest.Undefined? ==> exists j :: 0 <= j < |ws| && ws[j].begin <= ws[j].end && |data| < ws[j].end by {
            if rest.Undefined? {
              var j :| 0 <= j < |ws| - 1 && ws[1..][j].begin <= ws[1..][j].end && |s.data| < ws[1..][j].end;
              assert ws[j + 1] == ws[1..][j];
            }
          }
          rest
      case Undefined => Undefined
      case Unmodelled => Unmodelled
  }

  /** BMDFile::corrupt: the eight block windows, read from the header before
    * any block changes. */
  function Bmd(data: seq<byte>, info: Info, draw: nat -> byte, drawn: nat): (r: Res<Step>)
  {
    CorruptWindows(data, J3d.Windows(data), info, draw, drawn)
  }

  /** BMTFile::corrupt: the MAT block window. */
  function Bmt(data: seq<byte>, info: Info, draw: nat -> byte, drawn: nat): (r: Res<Step>)
  {
    CorruptWindow(data, J3d.BmtWindow(data), info, draw, drawn)
  }

  /** BCKFile::corrupt: its header parse reads 0x28 bytes unchecked, then
    * everything from 0x60 on is corrupted. */
  function Bck(data: seq<byte>, info: Info, draw: nat -> byte, drawn: nat): (r: Res<Step>)
    ensures r.Undefined? <==> |data| < 0x28
    ensures r.Ok? ==> |r.value.data| == |data|
    ensures r.Ok? ==> forall k :: 0 <= k < |data| && k < 0x60 ==> r.value.data[k] == data[k]
  {
    if |data| < 0x28 then Undefined else CorruptWindow(data, J3d.BckWindow(data), info, draw, drawn)
  }

  /** BTPFile::corrupt: everything after the 0x20-byte header. */
  function Btp(data: seq<byte>, info: Info, draw: nat -> byte, drawn: nat): (r: Res<Step>)
    ensures !r.Undefined?
    ensures r.Ok? ==> |r.value.data| == |data|
    ensures r.Ok? ==> forall k :: 0 <= k < |data| && k < 0x20 ==> r.value.data[k] == data[k]
  {
    CorruptWindow(data, J3d.BtpWindow(data), info, draw, drawn)
  }

  /** A BMD file's bytes outside the eight block windows, its header among
    * them whenever no window reaches into it, are never changed. */
  lemma BmdOutside(data: seq<byte>, info: Info, draw: nat -> byte, drawn: nat, k: nat)
    requires Bmd(data, info, draw, drawn).Ok? && k < |data|
    requires forall i :: 0 <= i < |J3d.Blocks| ==> !(J3d.Windows(data)[i].begin <= k < J3d.Windows(data)[i].end)
    ensures Bmd(data, info, draw, drawn).value.data[k] == data[k]
  {
    assert Outside(k, J3d.Windows(data));
  }

  // ---------------------------------------------------------------------------
  // NintendoFile::start and the archives

  /** The decoding step of start: Yaz0 or Yay0 by the magic, else the buffer
    * itself. None when the decoder aborts. */
  function Decompress(data: seq<byte>): (r: Option<seq<byte>>)
    ensures !Compressed(data) ==> r == Some(data)
  {
    if Tagged(data, 0, "Yaz0") then Yaz0.DecodeFrom(data, 0)
    else if Tagged(data, 0, "Yay0") then Yay0.Decode(data)
    else Some(data)
  }

  /** decode(encode(x)) == x for the Yaz0 codec makes start look through the
    * compression: a Yaz0 file is corrupted exactly as the buffer it encodes
    * would be, and the result is that buffer corrupted, not re-encoded. */
  lemma EncodedStart(x: seq<byte>, info: Info, draw: nat -> byte, drawn: nat, fuel: nat)
    requires 4 <= |x| < 0x8000_0000 && !Compressed(x)
    ensures Start(Yaz0.Encoded(x), info, draw, drawn, fuel) == Start(x, info, draw, drawn, fuel)
  {
    EncodedTagged(x);
    Yaz0.RoundTrip(x);
  }

  /** An encoded buffer starts with the Yaz0 magic. */
  lemma EncodedTagged(x: seq<byte>)
    ensures |Yaz0.Encoded(x)| >= 4 && Tagged(Yaz0.Encoded(x), 0, "Yaz0")
  {
    var z := Yaz0.Encoded(x);
    var body := z[|Yaz0.Header(|x|)|..];
    assert z == Yaz0.Header(|x|) + body;
    assert z[..4] == Yaz0.Magic;
    Yaz0.MagicText(z, 0);
  }

  /** NintendoFile::start(data, args) with the options `info`. */
  function Start(data: seq<byte>, info: Info, draw: nat -> byte, drawn: nat, fuel: nat): (r: Res<Step>)
    ensures r.Ok? ==> drawn <= r.value.drawn
    ensures r.Ok? && !Compressed(data) ==> |r.value.data| == |data|
    decreases fuel, 4, 0, 0
  {
    if fuel == 0 then Unmodelled
    else if |data| < 4 then Ok(Step(data, drawn, false))
    else match Decompress(data)
      case Some(plain) => Dispatch(plain, info, draw, drawn, fuel)
      case None => Undefined
  }

  /** The handlers start chooses between. */
  datatype Handler = RarcHandler | BckHandler | BtpHandler | BmdHandler | BmtHandler | U8Handler | PlainHandler | NoHandler

  /** The if/else-if chain of start's try block, on the decoded buffer. A J3D
    * file of a kind no handler knows gets none. */
  function HandlerFor(data: seq<byte>): Handler
  {
    if Tagged(data, 0, "RARC") then RarcHandler
    else if Tagged(data, 0, "J3D1") then
      if Tagged(data, 4, "bck1") || Tagged(data, 4, "btk1") then BckHandler
      else if Tagged(data, 4, "btp1") then BtpHandler
      else NoHandler
    else if Tagged(data, 0, "J3D2") then
      if Tagged(data, 4, "bmd3") then BmdHandler
      else if Tagged(data, 4, "bmt3") then BmtHandler
      else NoHandler
    else if Util.ReadBe(data, 0, 4) == U8.Magic then U8Handler
    else PlainHandler
  }

  /** The try block of start: the handler chosen by the magic. */
  function Dispatch(data: seq<byte>, info: Info, draw: nat -> byte, drawn: nat, fuel: nat): (r: Res<Step>)
    requires fuel >= 1
    ensures r.Ok? ==> |r.value.data| == |data| && drawn <= r.value.drawn
    decreases fuel, 3, 0, 0
  {
    Handle(HandlerFor(data), data, info, draw, drawn, fuel)
  }

  function Handle(handler: Handler, data: seq<byte>, info: Info, draw: nat -> byte, drawn: nat, fuel: nat): (r: Res<Step>)
    requires fuel >= 1
    ensures r.Ok? ==> |r.value.data| == |data| && drawn <= r.value.drawn
    decreases fuel, 2, 0, 0
  {
    match handler
    case RarcHandler => RarcCorrupt(data, info, draw, drawn, fuel)
    case BckHandler => Bck(data, info, draw, drawn)
    case BtpHandler => Btp(data, info, draw, drawn)
    case BmdHandler => Bmd(data, info, draw, drawn)
    case BmtHandler => Bmt(data, info, draw, drawn)
    case U8Handler => U8Corrupt(data, info, draw, drawn, fuel)
    case NoHandler => Ok(Step(data, drawn, false))
    case PlainHandler =>
      match Corrupt(data, info, draw, drawn)
      case Ok((out, n)) => Ok(Step(out, n, false))
      case Undefined => Undefined
      case Unmodelled => Unmodelled
  }

  /** RARCFile(data, args).corrupt(). */
  function RarcCorrupt(data: seq<byte>, info: Info, draw: nat -> byte, drawn: nat, fuel: nat): (r: Res<Step>)
    requires fuel >= 1
    ensures r.Ok? ==> |r.value.data| == |data| && drawn <= r.value.drawn
    decreases fuel, 1, 0, 0
  {
    match Rarc.Parse(data)
    case Ok(a) => RarcLoop(data, a.header, a.entries, 0, true, info, draw, drawn, fuel)
    case Undefined => Undefined
    case Unmodelled => Unmodelled
  }

  /** Whether RARCFile::corrupt hands a file to start: more than four bytes
    * and not compressed. */
  predicate Nested(file: seq<byte>)
  {
    |file| > 4 && !Compressed(file)
  }

  /** The bounds check of RARCFile::corrupt: the uint32_t sum as written, or
    * the corrected comparison without wrap-around. */
  predicate Skips(asWritten: bool, len: nat, h: Rarc.Header, e: Rarc.FileEntry)
  {
    if asWritten then Rarc.SkipAsWritten(len, h, e) else Rarc.Skip(len, h, e)
  }

  /** The loop of RARCFile::corrupt from the k-th entry (in path order) on.
    * With asWritten the bounds check is the source's uint32_t one, and an
    * entry that passes it while its data lies past the end makes the copy
    * read past the buffer; otherwise it is the corrected check. */
  function RarcLoop(data: seq<byte>, h: Rarc.Header, es: seq<(string, Rarc.FileEntry)>, k: nat, asWritten: bool,
                    info: Info, draw: nat -> byte, drawn: nat, fuel: nat): (r: Res<Step>)
    requires fuel >= 1 && k <= |es|
    ensures r.Ok? ==> |r.value.data| == |data| && drawn <= r.value.drawn
    decreases fuel, 0, |es| - k, 1
  {
    if k == |es| then Ok(Step(data, drawn, false))
    else
      var e := es[k].1;
      var at: nat, size: nat := Rarc.DataAt(h, e), e.size;
      if Skips(asWritten, |data|, h, e) then RarcLoop(data, h, es, k + 1, asWritten, info, draw, drawn, fuel)
      else if at + size > |data| then Undefined
      else
        var file := data[at..at + size];
        if !Nested(file) then RarcLoop(data, h, es, k + 1, asWritten, info, draw, drawn, fuel)
        else RarcCopy(data, h, es, k, asWritten, info, draw, fuel, at, size, Start(file, info, draw, drawn, fuel - 1))
  }

  /** The rest of the k-th pass once start returned s for the file at `at`:
    * its first size() bytes are copied back, and the loop goes on. start
    * keeps an uncompressed file's length, so the copy never reads past it. */
  function RarcCopy(data: seq<byte>, h: Rarc.Header, es: seq<(string, Rarc.FileEntry)>, k: nat, asWritten: bool,
                    info: Info, draw: nat -> byte, fuel: nat, at: nat, size: nat, s: Res<Step>): (r: Res<Step>)
    requires fuel >= 1 && k < |es| && at + size <= |data|
    requires s.Ok? ==> |s.value.data| == size
    ensures r.Ok? ==> s.Ok? && |r.value.data| == |data| && s.value.drawn <= r.value.drawn
    decreases fuel, 0, |es| - k, 0
  {
    match s
    case Ok(st) => RarcLoop(Splice(data, at, st.data[..size]), h, es, k + 1, asWritten, info, draw, st.drawn, fuel)
    case Undefined => Undefined
    case Unmodelled => Unmodelled
  }

  /** U8File::corrupt: the header, the file-system table and its file entries. */
  function U8Corrupt(data: seq<byte>, info: Info, draw: nat -> byte, drawn: nat, fuel: nat): (r: Res<Step>)
    requires fuel >= 1
    ensures r.Ok? ==> |r.value.data| == |data| && drawn <= r.value.drawn
    decreases fuel, 1, 0, 0
  {
    match U8.ParseFst(data, U8.ParseHeader(data).nodeOffset)
    case Ok(entries) => U8Loop(data, U8.Files(entries), 0, info, draw, drawn, fuel)
    case Undefined => Undefined
    case Unmodelled => Unmodelled
  }

  /** The loop of U8File::corrupt from the k-th file on. util::subset does no
    * bounds check, and only Yaz0 files are skipped. */
  function U8Loop(data: seq<byte>, fs: seq<U8.Entry>, k: nat, info: Info, draw: nat -> byte, drawn: nat, fuel: nat): (r: Res<Step>)
    requires fuel >= 1 && k <= |fs|
    ensures r.Ok? ==> |r.value.data| == |data| && drawn <= r.value.drawn
    decreases fuel, 0, |fs| - k, 1
  {
    if k == |fs| then Ok(Step(data, drawn, false))
    else
      var at: nat, size: nat := U8.DataStart(fs[k]), U8.DataSize(fs[k]);
      if at + size > |data| then Undefined
      else
        var file := data[at..at + size];
        if Tagged(file, 0, "Yaz0") then U8Loop(data, fs, k + 1, info, draw, drawn, fuel)
        else U8Copy(data, fs, k, info, draw, fuel, at, size, Start(file, info, draw, drawn, fuel - 1))
  }

  /** The rest of the k-th pass once start returned s for the file at `at`.
    * A Yay0 file decodes to a buffer whose first data_size() bytes are copied
    * back, which reads past that buffer when it is shorter. */
  function U8Copy(data: seq<byte>, fs: seq<U8.Entry>, k: nat, info: Info, draw: nat -> byte, fuel: nat,
                  at: nat, size: nat, s: Res<Step>): (r: Res<Step>)
    requires fuel >= 1 && k < |fs| && at + size <= |data|
    ensures r.Ok? ==> s.Ok? && size <= |s.value.data|
    ensures r.Ok? ==> |r.value.data| == |data| && s.value.drawn <= r.value.drawn
    decreases fuel, 0, |fs| - k, 0
  {
    match s
    case Ok(st) =>
      if |st.data| < size then Undefined
      else U8Loop(Splice(data, at, st.data[..size]), fs, k + 1, info, draw, st.drawn, fuel)
    case Undefined => Undefined
    case Unmodelled => Unmodelled
  }

  // ---------------------------------------------------------------------------
  // The handlers on the buffer in place

  /** std::copy(part, data + at): the bytes at `at` are overwritten. */
  method CopyInto(data: array<byte>, at: nat, part: seq<byte>)
    requires at + |part| <= data.Length
    modifies data
    ensures data[..] == Splice(old(data[..]), at, part)
  {
    var i := 0;
    while i < |part|
      invariant i <= |part|
      invariant forall k :: 0 <= k < data.Length && !(at <= k < at + i) ==> data[k] == old(data[k])
      invariant forall k :: 0 <= k < i ==> data[at + k] == part[k]
    {
      data[at + i] := part[i];
      i := i + 1;
    }
    assert forall k :: 0 <= k < data.Length ==> data[k] == Splice(old(data[..]), at, part)[k];
  }

  /** std::vector(data + begin, data + end): a fresh copy of the range. */
  method CopyOut(data: array<byte>, begin: nat, end: nat) returns (sub: array<byte>)
    requires begin <= end <= data.Length
    ensures fresh(sub) && sub[..] == data[begin..end]
  {
    sub := new byte[end - begin];
    var i := 0;
    while i < end - begin
      invariant i <= end - begin
      invariant forall k :: 0 <= k < i ==> sub[k] == data[begin + k]
    {
      sub[i] := data[begin + i];
      i := i + 1;
    }
  }

  /** NintendoFile::corrupt(data, args), on the buffer in place. */
  method CorruptInPlace(data: array<byte>, info: Info, draw: nat -> byte, drawn: nat) returns (drawn': nat)
    requires Engine.Terminates(LoopOf(info, data.Length))
    modifies data
    ensures Corrupt(old(data[..]), info, draw, drawn) == Ok((data[..], drawn'))
  {
    var c := new Engine.Corruption(data, info, drawn);
    var _ := c.Corrupt(Engine.AlwaysValid(), draw);
    drawn' := c.drawn;
  }

  /** One window in place: copy it out, corrupt the copy, copy it back. */
  method WindowInPlace(data: array<byte>, w: J3d.Window, info: Info, draw: nat -> byte, drawn: nat) returns (drawn': nat, thrown: bool)
    requires CorruptWindow(data[..], w, info, draw, drawn).Ok?
    modifies data
    ensures CorruptWindow(old(data[..]), w, info, draw, drawn) == Ok(Step(data[..], drawn', thrown))
  {
    if w.begin > w.end {
      return drawn, true;
    }
    var sub := CopyOut(data, w.begin, w.end);
    drawn' := CorruptInPlace(sub, info, draw, drawn);
    CopyInto(data, w.begin, sub[..]);
    thrown := false;
  }

  /** BMDFile::corrupt: the eight windows in turn, until one throws. */
  method BmdInPlace(data: array<byte>, info: Info, draw: nat -> byte, drawn: nat) returns (drawn': nat, thrown: bool)
    requires Bmd(data[..], info, draw, drawn).Ok?
    modifies data
    ensures Bmd(old(data[..]), info, draw, drawn) == Ok(Step(data[..], drawn', thrown))
  {
    var ws := J3d.Windows(data[..]);
    var i := 0;
    drawn', thrown := drawn, false;
    ghost var want := Bmd(old(data[..]), info, draw, drawn);
    while i < |ws|
      invariant i <= |ws|
      invariant CorruptWindows(data[..], ws[i..], info, draw, drawn') == want
    {
      assert ws[i..][0] == ws[i] && ws[i..][1..] == ws[i + 1..];
      drawn', thrown := WindowInPlace(data, ws[i], info, draw, drawn');
      if thrown {
        return;
      }
      i := i + 1;
    }
  }

  /** A pass of RARCFile::corrupt's loop that does not fail: either check
    * then skips exactly the entries whose data passes the end (so a run that
    * does not fail never meets the wrap-around), a file too short or
    * compressed is passed over, and any other file is replaced by what start
    * makes of it, which has its length. */
  lemma {:induction false} RarcStep(data: seq<byte>, h: Rarc.Header, es: seq<(string, Rarc.FileEntry)>, k: nat, asWritten: bool,
                                    info: Info, draw: nat -> byte, drawn: nat, fuel: nat, at: nat, size: nat, file: seq<byte>)
    requires fuel >= 1 && k < |es| && RarcLoop(data, h, es, k, asWritten, info, draw, drawn, fuel).Ok?
    requires at == Rarc.DataAt(h, es[k].1) && size == es[k].1.size
    requires !Rarc.Skip(|data|, h, es[k].1) ==> file == data[at..at + size]
    ensures Skips(asWritten, |data|, h, es[k].1) <==> Rarc.Skip(|data|, h, es[k].1)
    ensures Rarc.Skip(|data|, h, es[k].1) || !Nested(file) ==>
      RarcLoop(data, h, es, k, asWritten, info, draw, drawn, fuel) == RarcLoop(data, h, es, k + 1, asWritten, info, draw, drawn, fuel)
    ensures !Rarc.Skip(|data|, h, es[k].1) && Nested(file) ==>
      var r := Start(file, info, draw, drawn, fuel - 1);
      r.Ok? && |r.value.data| == size &&
      RarcLoop(data, h, es, k, asWritten, info, draw, drawn, fuel) == RarcLoop(Splice(data, at, r.value.data[..size]), h, es, k + 1, asWritten, info, draw, r.value.drawn, fuel)
  {
    var e := es[k].1;
    assert Wrap32(at + size) <= at + size;
    if !Rarc.Skip(|data|, h, e) && Nested(file) {
      var r := Start(file, info, draw, drawn, fuel - 1);
      assert RarcLoop(data, h, es, k, asWritten, info, draw, drawn, fuel) == RarcCopy(data, h, es, k, asWritten, info, draw, fuel, at, size, r);
    }
  }

  /** The discrepancy on the loop: an entry whose offset + size wraps past
    * 2^32 passes the check as written and makes the run read past the
    * buffer, while the corrected run skips it and goes on. */
  lemma RarcWrapUndefined(data: seq<byte>, h: Rarc.Header, es: seq<(string, Rarc.FileEntry)>, k: nat,
                          info: Info, draw: nat -> byte, drawn: nat, fuel: nat)
    requires fuel >= 1 && k < |es| && !Rarc.SkipAsWritten(|data|, h, es[k].1) && Rarc.Skip(|data|, h, es[k].1)
    ensures RarcLoop(data, h, es, k, true, info, draw, drawn, fuel).Undefined?
    ensures RarcLoop(data, h, es, k, false, info, draw, drawn, fuel) == RarcLoop(data, h, es, k + 1, false, info, draw, drawn, fuel)
  {
  }

  /** Position p lies in the data of none of the entries from the k-th on. */
  predicate OutsideEntries(p: nat, h: Rarc.Header, es: seq<(string, Rarc.FileEntry)>, k: nat)
  {
    forall j :: k <= j < |es| ==> !(Rarc.DataAt(h, es[j].1) <= p < Rarc.DataAt(h, es[j].1) + es[j].1.size)
  }

  /** RARCFile::corrupt writes only into its files' data: the header, the
    * node and entry tables and the string table keep their bytes unless a
    * file's data overlaps them. */
  lemma {:induction false} RarcOutside(data: seq<byte>, h: Rarc.Header, es: seq<(string, Rarc.FileEntry)>, k: nat, asWritten: bool,
                                       info: Info, draw: nat -> byte, drawn: nat, fuel: nat, p: nat)
    requires fuel >= 1 && k <= |es| && RarcLoop(data, h, es, k, asWritten, info, draw, drawn, fuel).Ok?
    requires p < |data| && OutsideEntries(p, h, es, k)
    ensures RarcLoop(data, h, es, k, asWritten, info, draw, drawn, fuel).value.data[p] == data[p]
    decreases |es| - k
  {
    if k < |es| {
      var e := es[k].1;
      var at: nat, size: nat := Rarc.DataAt(h, e), e.size;
      var file := if at + size <= |data| then data[at..at + size] else [];
      RarcStep(data, h, es, k, asWritten, info, draw, drawn, fuel, at, size, file);
      if !Rarc.Skip(|data|, h, e) && Nested(file) {
        var r := Start(file, info, draw, drawn, fuel - 1).value;
        var next, drawn', k' := Splice(data, at, r.data[..size]), r.drawn, k + 1;
        RarcOutside(next, h, es, k', asWritten, info, draw, drawn', fuel, p);
      } else {
        var k' := k + 1;
        RarcOutside(data, h, es, k', asWritten, info, draw, drawn, fuel, p);
      }
    }
  }

  /** RARCFile: the archive's own copy of the buffer, which corrupt() changes
    * and returns, and the header and path -> entry map its constructor reads. */
  class RarcFile {
    const data: array<byte>
    const header: Rarc.Header
    const entries: seq<(string, Rarc.FileEntry)>
    const info: Info

    constructor(d: seq<byte>, info: Info)
      requires Rarc.Parse(d).Ok?
      ensures fresh(data) && data[..] == d && this.info == info
      ensures Rarc.Parse(d) == Ok(Rarc.Archive(header, entries))
    {
      var a := Rarc.Parse(d).value;
      data := new byte[|d|](k requires 0 <= k < |d| => d[k]);
      header, entries := a.header, a.entries;
      this.info := info;
    }

    /** corrupt(): every file in path order through a nested start. */
    method Corrupt(draw: nat -> byte, drawn: nat, fuel: nat) returns (drawn': nat)
      requires fuel >= 1 && RarcLoop(data[..], header, entries, 0, true, info, draw, drawn, fuel).Ok?
      modifies data
      ensures RarcLoop(old(data[..]), header, entries, 0, true, info, draw, drawn, fuel) == Ok(Step(data[..], drawn', false))
    {
      var k := 0;
      drawn' := drawn;
      ghost var want := RarcLoop(old(data[..]), header, entries, 0, true, info, draw, drawn, fuel);
      while k < |entries|
        invariant k <= |entries|
        invariant RarcLoop(data[..], header, entries, k, true, info, draw, drawn', fuel) == want
      {
        drawn' := CorruptEntry(k, draw, drawn', fuel);
        k := k + 1;
      }
    }

    /** The loop body of corrupt() for the k-th entry. */
    method CorruptEntry(k: nat, draw: nat -> byte, drawn: nat, fuel: nat) returns (drawn': nat)
      requires fuel >= 1 && k < |entries| && RarcLoop(data[..], header, entries, k, true, info, draw, drawn, fuel).Ok?
      modifies data
      ensures RarcLoop(data[..], header, entries, k + 1, true, info, draw, drawn', fuel) == RarcLoop(old(data[..]), header, entries, k, true, info, draw, drawn, fuel)
    {
      var e := entries[k].1;
      var at: nat, size: nat := Rarc.DataAt(header, e), e.size;
      var file := if at + size <= data.Length then data[at..at + size] else [];
      RarcStep(data[..], header, entries, k, true, info, draw, drawn, fuel, at, size, file);
      drawn' := drawn;
      if !Rarc.SkipAsWritten(data.Length, header, e) && Nested(file) {
        var r := Start(file, info, draw, drawn, fuel - 1).value;
        CopyInto(data, at, r.data[..size]);
        drawn' := r.drawn;
      }
    }
  }

  /** A pass of U8File::corrupt's loop that does not fail: the k-th file lies
    * inside the buffer, a Yaz0 file is passed over, and any other file is
    * replaced by the first data_size() bytes of what start makes of it. */
  lemma {:induction false} U8Step(data: seq<byte>, fs: seq<U8.Entry>, k: nat, info: Info, draw: nat -> byte, drawn: nat, fuel: nat,
                                  at: nat, size: nat, file: seq<byte>)
    requires fuel >= 1 && k < |fs| && U8Loop(data, fs, k, info, draw, drawn, fuel).Ok?
    requires at == U8.DataStart(fs[k]) && size == U8.DataSize(fs[k])
    requires at + size <= |data| ==> file == data[at..at + size]
    ensures at + size <= |data|
    ensures Tagged(file, 0, "Yaz0") ==> U8Loop(data, fs, k, info, draw, drawn, fuel) == U8Loop(data, fs, k + 1, info, draw, drawn, fuel)
    ensures !Tagged(file, 0, "Yaz0") ==>
      var r := Start(file, info, draw, drawn, fuel - 1);
      r.Ok? && size <= |r.value.data| &&
      U8Loop(data, fs, k, info, draw, drawn, fuel) == U8Loop(Splice(data, at, r.value.data[..size]), fs, k + 1, info, draw, r.value.drawn, fuel)
  {
    U8InRange(data, fs, k, info, draw, drawn, fuel, at, size);
    if !Tagged(file, 0, "Yaz0") {
      U8Started(data, fs, k, info, draw, drawn, fuel, at, size, file);
    }
  }

  /** A file the loop gets past lies inside the buffer. */
  lemma U8InRange(data: seq<byte>, fs: seq<U8.Entry>, k: nat, info: Info, draw: nat -> byte, drawn: nat, fuel: nat,
                  at: nat, size: nat)
    requires fuel >= 1 && k < |fs| && U8Loop(data, fs, k, info, draw, drawn, fuel).Ok?
    requires at == U8.DataStart(fs[k]) && size == U8.DataSize(fs[k])
    ensures at + size <= |data|
  {
  }

  /** A file that is not Yaz0 compressed goes through start and is copied back. */
  lemma {:induction false} U8Started(data: seq<byte>, fs: seq<U8.Entry>, k: nat, info: Info, draw: nat -> byte, drawn: nat, fuel: nat,
                  at: nat, size: nat, file: seq<byte>)
    requires fuel >= 1 && k < |fs| && at == U8.DataStart(fs[k]) && size == U8.DataSize(fs[k])
    requires at + size <= |data| && file == data[at..at + size] && !Tagged(file, 0, "Yaz0")
    ensures U8Loop(data, fs, k, info, draw, drawn, fuel) == U8Copy(data, fs, k, info, draw, fuel, at, size, Start(file, info, draw, drawn, fuel - 1))
  {
    var s := Start(file, info, draw, drawn, fuel - 1);
    assert U8Loop(data, fs, k, info, draw, drawn, fuel) == U8Copy(data, fs, k, info, draw, fuel, at, size, s);
  }

  /** Position p lies in the data of none of the files from the k-th on. */
  predicate OutsideFiles(p: nat, fs: seq<U8.Entry>, k: nat)
  {
    forall j :: k <= j < |fs| ==> !(U8.DataStart(fs[j]) <= p < U8.DataStart(fs[j]) + U8.DataSize(fs[j]))
  }

  /** U8File::corrupt writes only into its files' data. */
  lemma {:induction false} U8Outside(data: seq<byte>, fs: seq<U8.Entry>, k: nat, info: Info, draw: nat -> byte, drawn: nat, fuel: nat, p: nat)
    requires fuel >= 1 && k <= |fs| && U8Loop(data, fs, k, info, draw, drawn, fuel).Ok?
    requires p < |data| && OutsideFiles(p, fs, k)
    ensures U8Loop(data, fs, k, info, draw, drawn, fuel).value.data[p] == data[p]
    decreases |fs| - k
  {
    if k < |fs| {
      var at: nat, size: nat := U8.DataStart(fs[k]), U8.DataSize(fs[k]);
      var file := if at + size <= |data| then data[at..at + size] else [];
      U8Step(data, fs, k, info, draw, drawn, fuel, at, size, file);
      if !Tagged(file, 0, "Yaz0") {
        var r := Start(file, info, draw, drawn, fuel - 1).value;
        var next, drawn', k' := Splice(data, at, r.data[..size]), r.drawn, k + 1;
        U8Outside(next, fs, k', info, draw, drawn', fuel, p);
      } else {
        var k' := k + 1;
        U8Outside(data, fs, k', info, draw, drawn, fuel, p);
      }
    }
  }

  /** One pass of U8File::corrupt's loop: the k-th file through a nested
    * start, unless it is Yaz0 compressed. */
  method U8FileInPlace(data: array<byte>, fs: seq<U8.Entry>, k: nat, info: Info, draw: nat -> byte, drawn: nat, fuel: nat) returns (drawn': nat)
    requires fuel >= 1 && k < |fs| && U8Loop(data[..], fs, k, info, draw, drawn, fuel).Ok?
    modifies data
    ensures U8Loop(data[..], fs, k + 1, info, draw, drawn', fuel) == U8Loop(old(data[..]), fs, k, info, draw, drawn, fuel)
  {
    var at: nat, size: nat := U8.DataStart(fs[k]), U8.DataSize(fs[k]);
    var file := if at + size <= data.Length then data[at..at + size] else [];
    U8Step(data[..], fs, k, info, draw, drawn, fuel, at, size, file);
    drawn' := drawn;
    if !Tagged(file, 0, "Yaz0") {
      var r := Start(file, info, draw, drawn, fuel - 1).value;
      CopyInto(data, at, r.data[..size]);
      drawn' := r.drawn;
    }
  }

  /** U8File::corrupt(data, args), on the buffer in place. */
  method U8InPlace(data: array<byte>, info: Info, draw: nat -> byte, drawn: nat, fuel: nat) returns (drawn': nat)
    requires fuel >= 1 && U8Corrupt(data[..], info, draw, drawn, fuel).Ok?
    modifies data
    ensures U8Corrupt(old(data[..]), info, draw, drawn, fuel) == Ok(Step(data[..], drawn', false))
  {
    var h := U8.ParseHeader(data[..]);
    var entries := U8.ReadFst(data[..], h.nodeOffset);
    var fs := U8.FilesOf(entries.value);
    var k := 0;
    drawn' := drawn;
    ghost var want := U8Corrupt(old(data[..]), info, draw, drawn, fuel);
    while k < |fs|
      invariant k <= |fs|
      invariant U8Loop(data[..], fs, k, info, draw, drawn', fuel) == want
    {
      drawn' := U8FileInPlace(data, fs, k, info, draw, drawn', fuel);
      k := k + 1;
    }
  }
}
