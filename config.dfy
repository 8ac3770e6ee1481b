// CorruptionInfo (include/corruptioninfo.h, corruptioninfo.cpp): the options of
// one corruption run, parsed from the command-line arguments.

module Config {
  import opened Bytes

  /** The enum CorruptionType; its first member, None, is named Unset here so as
    * not to clash with Option's None. */
  datatype CorruptionType =
    | Unset | Shift | Swap | Add | Set | Random | RotateLeft | RotateRight
    | LogicalAnd | LogicalOr | LogicalXor | LogicalComplement

  datatype Info = Info(
    outfile: string,
    kind: CorruptionType,
    step: u32,
    start: u32,
    end: u32,
    value: u32,
    list: bool,
    files: seq<string>)

  /** The values both constructors start from. */
  const Defaults := Info("", Unset, 0, 0, U32_MAX, 0, false, [])

  /** What an argument means to the parser. */
  datatype Flag =
    | StepFlag | StartFlag | StopFlag | OutFlag
    | TypeWithValue(kind: CorruptionType)
    | TypeOnly(kind: CorruptionType)
    | FilesFlag | FileListFlag | ListFlag | Unknown

  /** The if/else-if chain of the constructor's loop body, as the list of the
    * spellings it tests, in the order it tests them. */
  const Spellings: seq<(string, Flag)> := [
    ("-s", StepFlag), ("--step", StepFlag),
    ("-h", TypeWithValue(Shift)), ("--shift", TypeWithValue(Shift)),
    ("-w", TypeWithValue(Swap)), ("--swap", TypeWithValue(Swap)),
    ("-a", TypeWithValue(Add)), ("--add", TypeWithValue(Add)),
    ("-t", TypeWithValue(Set)), ("--set", TypeWithValue(Set)),
    ("-r", TypeOnly(Random)), ("--random", TypeOnly(Random)),
    ("--rotate-left", TypeWithValue(RotateLeft)),
    ("--rotate-right", TypeWithValue(RotateRight)),
    ("--logical-and", TypeWithValue(LogicalAnd)),
    ("--logical-or", TypeWithValue(LogicalOr)),
    ("--logical-xor", TypeWithValue(LogicalXor)),
    ("--logical-complement", TypeOnly(LogicalComplement)),
    ("-b", StartFlag), ("--start", StartFlag),
    ("-e", StopFlag), ("--stop", StopFlag),
    ("-o", OutFlag), ("--out", OutFlag),
    ("-f", FilesFlag), ("--files", FilesFlag),
    ("--filelist", FileListFlag),
    ("--list", ListFlag)]

  /** The flag of the first spelling in `table` equal to `arg`; Unknown if none is. */
  function Lookup(table: seq<(string, Flag)>, arg: string): (f: Flag)
    ensures f == Unknown || exists k :: 0 <= k < |table| && table[k] == (arg, f)
  {
    if table == [] then Unknown
    else if table[0].0 == arg then table[0].1
    else Lookup(table[1..], arg)
  }

  /** What the loop body makes of one argument. */
  function Classify(arg: string): Flag
  {
    Lookup(Spellings, arg)
  }

  /** `args[file][0] != '-'`; an empty std::string yields its terminating NUL there. */
  predicate IsOption(arg: string)
  {
    |arg| > 0 && arg[0] == '-'
  }

  /** Flags that read the next argument as their value. */
  predicate TakesValue(f: Flag)
  {
    f.StepFlag? || f.StartFlag? || f.StopFlag? || f.OutFlag? || f.TypeWithValue? || f.FileListFlag?
  }

  /** Number of arguments from `from` on, up to the first option: what -f takes. */
  function FileRun(args: seq<string>, from: nat): (n: nat)
    requires from <= |args|
    ensures from + n <= |args|
    decreases |args| - from
  {
    if from == |args| || IsOption(args[from]) then 0 else 1 + FileRun(args, from + 1)
  }

  /** FileRun stops at the first option: the arguments it covers are file
    * names, and the one after them, if any, is an option. */
  lemma {:induction false} FileRunStops(args: seq<string>, from: nat)
    requires from <= |args|
    ensures forall k :: from <= k < from + FileRun(args, from) ==> !IsOption(args[k])
    ensures from + FileRun(args, from) < |args| ==> IsOption(args[from + FileRun(args, from)])
    decreases |args| - from
  {
    if from < |args| && !IsOption(args[from]) {
      FileRunStops(args, from + 1);
    }
  }

  /** The effect of a value flag with value `v`. */
  function WithValue(info: Info, f: Flag, v: string, toInt: string -> u32): Info
    requires TakesValue(f)
  {
    match f
    case StepFlag => info.(step := toInt(v))
    case StartFlag => info.(start := toInt(v))
    case StopFlag => info.(end := toInt(v))
    case OutFlag => info.(outfile := v)
    case TypeWithValue(k) => info.(value := toInt(v), kind := k)
    case FileListFlag => info
  }

  /** One pass of the constructor's loop body at argument i, which Classify maps
    * to f: the new options and the index of the next argument to read. None
    * stands for a value flag as the last argument: the source then reads
    * args[args.size()]. */
  function Step(info: Info, f: Flag, args: seq<string>, i: nat, toInt: string -> u32): (r: Option<(Info, nat)>)
    requires i < |args|
    ensures r.Some? ==> i < r.value.1 <= |args|
  {
    if TakesValue(f) then
      if i + 1 == |args| then None else Some((WithValue(info, f, args[i + 1], toInt), i + 2))
    else if f.TypeOnly? then Some((info.(kind := f.kind), i + 1))
    else if f.ListFlag? then Some((info.(list := true), i + 1))
    else if f.FilesFlag? then
      var n := FileRun(args, i + 1);
      Some((info.(files := info.files + args[i + 1..i + 1 + n]), i + 1 + n))
    else Some((info, i + 1))
  }

  /** The constructor's loop from argument i on. */
  function ParseFrom(info: Info, args: seq<string>, i: nat, toInt: string -> u32): Option<Info>
    requires i <= |args|
    decreases |args| - i
  {
    if i == |args| then Some(info)
    else match Step(info, Classify(args[i]), args, i, toInt)
      case None => None
      case Some((next, j)) => ParseFrom(next, args, j, toInt)
  }

  /** CorruptionInfo(args). */
  function Parse(args: seq<string>, toInt: string -> u32): Option<Info>
  {
    ParseFrom(Defaults, args, 0, toInt)
  }

  /** The inner loop of -f: the index of the first option at or after `from`. */
  method FilesAfter(args: seq<string>, from: nat) returns (file: nat)
    requires from <= |args|
    ensures from <= file <= |args|
    ensures file - from == FileRun(args, from)
  {
    file := from;
    while file < |args| && !IsOption(args[file])
      invariant from <= file <= |args|
      invariant FileRun(args, from) == (file - from) + FileRun(args, file)
      decreases |args| - file
    {
      file := file + 1;
    }
  }

  /** The constructor's loop, index by index. */
  method ParseArgs(args: seq<string>, toInt: string -> u32) returns (r: Option<Info>)
    ensures r == Parse(args, toInt)
  {
    var info := Defaults;
    var i := 0;
    while i < |args|
      invariant 0 <= i <= |args|
      invariant ParseFrom(info, args, i, toInt) == Parse(args, toInt)
      decreases |args| - i
    {
      var st := ReadArg(info, Classify(args[i]), args, i, toInt);
      if st.None? {
        return None;
      }
      info, i := st.value.0, st.value.1;
    }
    r := Some(info);
  }

  /** The loop body for the argument at i, which Classify maps to f. */
  method ReadArg(info: Info, f: Flag, args: seq<string>, i: nat, toInt: string -> u32) returns (r: Option<(Info, nat)>)
    requires i < |args|
    ensures r == Step(info, f, args, i, toInt)
  {
    if TakesValue(f) {
      if i + 1 >= |args| {
        return None;
      }
      r := Some((WithValue(info, f, args[i + 1], toInt), i + 2));
    } else if f.TypeOnly? {
      r := Some((info.(kind := f.kind), i + 1));
    } else if f.ListFlag? {
      r := Some((info.(list := true), i + 1));
    } else if f.FilesFlag? {
      var file := FilesAfter(args, i + 1);
      r := Some((info.(files := info.files + args[i + 1..file]), file));
    } else {
      r := Some((info, i + 1));
    }
  }

  /** FileRun within a prefix is not extended by a suffix that is empty or
    * starts with an option. */
  lemma {:induction false} FileRunConcat(a: seq<string>, b: seq<string>, from: nat)
    requires from <= |a|
    requires b == [] || IsOption(b[0])
    ensures FileRun(a + b, from) == FileRun(a, from)
    decreases |a| - from
  {
    if from == |a| {
      if b != [] {
        assert (a + b)[from] == b[0];
      }
    } else {
      assert (a + b)[from] == a[from];
      FileRunConcat(a, b, from + 1);
    }
  }

  /** A step that completes within `a` reads the same from `a + b`, when `b`
    * is empty or starts with an option. */
  lemma StepConcat(info: Info, f: Flag, a: seq<string>, b: seq<string>, i: nat, toInt: string -> u32)
    requires i < |a| && Step(info, f, a, i, toInt).Some?
    requires b == [] || IsOption(b[0])
    ensures Step(info, f, a + b, i, toInt) == Step(info, f, a, i, toInt)
  {
    var ab := a + b;
    if f.FilesFlag? {
      FileRunConcat(a, b, i + 1);
      var n := FileRun(a, i + 1);
      assert ab[i + 1..i + 1 + n] == a[i + 1..i + 1 + n];
    } else if TakesValue(f) {
      assert ab[i + 1] == a[i + 1];
    }
  }

  /** Options compose: once a prefix has been read completely, the arguments
    * after it are read from the resulting options, provided it starts with an option (or is
    * empty), so that a -f list at the end of the prefix cannot run on into it. */
  lemma {:induction false} ParseConcat(info: Info, a: seq<string>, b: seq<string>, i: nat, toInt: string -> u32)
    requires i <= |a| && ParseFrom(info, a, i, toInt).Some?
    requires b == [] || IsOption(b[0])
    ensures ParseFrom(info, a + b, i, toInt) == ParseFrom(ParseFrom(info, a, i, toInt).value, a + b, |a|, toInt)
    decreases |a| - i
  {
    if i < |a| {
      var f := Classify(a[i]);
      var st := Step(info, f, a, i, toInt).value;
      assert (a + b)[i] == a[i];
      StepConcat(info, f, a, b, i, toInt);
      ParseConcat(st.0, a, b, st.1, toInt);
    }
  }

  /** The last value flag wins: appending one to a complete argument list sets
    * exactly its field (for a corruption type, the type and the value). */
  lemma LastFlagWins(args: seq<string>, flag: string, v: string, toInt: string -> u32)
    requires Parse(args, toInt).Some?
    requires IsOption(flag) && TakesValue(Classify(flag))
    ensures Parse(args + [flag, v], toInt) == Some(WithValue(Parse(args, toInt).value, Classify(flag), v, toInt))
  {
    var all := args + [flag, v];
    ParseConcat(Defaults, args, [flag, v], 0, toInt);
    assert all[|args|] == flag && all[|args| + 1] == v;
  }

  /** Every file to corrupt was given as an argument after -f, and none of them
    * looks like an option. */
  lemma {:induction false} FilesComeFromArgs(info: Info, args: seq<string>, i: nat, toInt: string -> u32)
    requires i <= |args| && ParseFrom(info, args, i, toInt).Some?
    ensures forall f :: f in ParseFrom(info, args, i, toInt).value.files ==>
      f in info.files || (f in args[i..] && !IsOption(f))
    decreases |args| - i
  {
    if i < |args| {
      var st := Step(info, Classify(args[i]), args, i, toInt).value;
      var next, j := st.0, st.1;
      FilesComeFromArgs(next, args, j, toInt);
      StepFiles(info, Classify(args[i]), args, i, toInt, next, j);
      assert forall x :: x in args[j..] ==> x in args[i..];
    }
  }

  /** The files one step adds are arguments after i that are not options. */
  lemma StepFiles(info: Info, f: Flag, args: seq<string>, i: nat, toInt: string -> u32, next: Info, j: nat)
    requires i < |args| && Step(info, f, args, i, toInt) == Some((next, j))
    ensures forall x :: x in next.files ==> x in info.files || (x in args[i..] && !IsOption(x))
  {
    if f.FilesFlag? {
      FileRunStops(args, i + 1);
      forall x | x in next.files && x !in info.files ensures x in args[i..] && !IsOption(x) {
        var k :| 0 <= k < |args[i + 1..j]| && args[i + 1..j][k] == x;
        assert x == args[i..][k + 1];
      }
    }
  }

  /** With no arguments the options are the defaults: no corruption type,
    * step 0, start 0, end UINT32_MAX, value 0, no listing, no out-file. */
  lemma NoArgsDefaults(toInt: string -> u32)
    ensures Parse([], toInt) == Some(Info("", Unset, 0, 0, 0xFFFF_FFFF, 0, false, []))
  {
  }

  /** An argument that is none of the recognised spellings changes nothing. */
  lemma UnknownIgnored(args: seq<string>, arg: string, toInt: string -> u32)
    requires Parse(args, toInt).Some?
    requires IsOption(arg) && Classify(arg) == Unknown
    ensures Parse(args + [arg], toInt) == Parse(args, toInt)
  {
    var all := args + [arg];
    ParseConcat(Defaults, args, [arg], 0, toInt);
    assert all[|args|] == arg;
  }
}
