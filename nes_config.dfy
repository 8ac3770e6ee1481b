// NESCorruptionInfo (extensions/nes/nescorruptioninfo.h and .cpp): the options
// of an NES run, which corrupts PRG-ROM and CHR-ROM separately. Each region has
// its own step, bounds, value and corruption type, and is corrupted only when
// its step was given. The generic flags of the base class still set the base
// fields, which the NES passes do not read.

module NesConfig {
  import opened Bytes
  import opened Config

  /** The options of one ROM region. */
  datatype Region = Region(enabled: bool, step: u32, start: u32, end: u32, value: u32, kind: CorruptionType)

  datatype NesInfo = NesInfo(base: Info, prg: Region, chr: Region)

  /** A region nobody asked for: off, step 0, the whole range, type None. */
  const Untouched := Region(false, 0, 0, U32_MAX, 0, Unset)

  /** The defaults the constructor sets (the base part by CorruptionInfo()). */
  const Defaults := NesInfo(Config.Defaults, Untouched, Untouched)

  /** Which fields a flag sets: the base class's, or one region's. */
  datatype Target = Base | Prg | Chr

  datatype Flag =
    | StepOf(target: Target)
    | TypeOf(target: Target, kind: CorruptionType, withValue: bool)
    | StartOf(target: Target)
    | StopOf(target: Target)
    | Out
    | Ignored

  /** The if/else-if chain of the constructor's loop body. The base class's
    * -b/--start, -f, --filelist and --list are not in it and are ignored. */
  function Classify(arg: string): Flag
  {
    if arg == "-s" || arg == "--step" then StepOf(Base)
    else if arg == "-ps" || arg == "--prg-step" then StepOf(Prg)
    else if arg == "-cs" || arg == "--chr-step" then StepOf(Chr)
    else if arg == "-h" || arg == "--shift" then TypeOf(Base, Shift, true)
    else if arg == "-ph" || arg == "--prg-shift" then TypeOf(Prg, Shift, true)
    else if arg == "-ch" || arg == "--chr-shift" then TypeOf(Chr, Shift, true)
    else if arg == "-w" || arg == "--swap" then TypeOf(Base, Swap, true)
    else if arg == "-pw" || arg == "--prg-swap" then TypeOf(Prg, Swap, true)
    else if arg == "-cw" || arg == "--chr-swap" then TypeOf(Chr, Swap, true)
    else if arg == "-a" || arg == "--add" then TypeOf(Base, Add, true)
    else if arg == "-pa" || arg == "--prg-add" then TypeOf(Prg, Add, true)
    else if arg == "-ca" || arg == "--chr-add" then TypeOf(Chr, Add, true)
    else if arg == "-t" || arg == "--set" then TypeOf(Base, Set, true)
    else if arg == "-pt" || arg == "--prg-set" then TypeOf(Prg, Set, true)
    else if arg == "-ct" || arg == "--chr-set" then TypeOf(Chr, Set, true)
    else if arg == "-r" || arg == "--random" then TypeOf(Base, Random, false)
    else if arg == "-pr" || arg == "--prg-random" then TypeOf(Prg, Random, false)
    else if arg == "-cr" || arg == "--chr-random" then TypeOf(Chr, Random, false)
    else if arg == "--rotate-left" then TypeOf(Base, RotateLeft, true)
    else if arg == "--prg-bitshift-left" then TypeOf(Prg, RotateLeft, true)
    else if arg == "--chr-bitshift-left" then TypeOf(Chr, RotateLeft, true)
    else if arg == "--rotate-right" then TypeOf(Base, RotateRight, true)
    else if arg == "--prg-bitshift-right" then TypeOf(Prg, RotateRight, true)
    else if arg == "--chr-bitshift-right" then TypeOf(Chr, RotateRight, true)
    else if arg == "--logical-and" then TypeOf(Base, LogicalAnd, true)
    else if arg == "--prg-logical-and" then TypeOf(Prg, LogicalAnd, true)
    else if arg == "--chr-logical-and" then TypeOf(Chr, LogicalAnd, true)
    else if arg == "--logical-or" then TypeOf(Base, LogicalOr, true)
    else if arg == "--prg-logical-or" then TypeOf(Prg, LogicalOr, true)
    else if arg == "--chr-logical-or" then TypeOf(Chr, LogicalOr, true)
    else if arg == "--logical-xor" then TypeOf(Base, LogicalXor, true)
    else if arg == "--prg-logical-xor" then TypeOf(Prg, LogicalXor, true)
    else if arg == "--chr-logical-xor" then TypeOf(Chr, LogicalXor, true)
    else if arg == "--logical-complement" then TypeOf(Base, LogicalComplement, false)
    else if arg == "--prg-logical-complement" then TypeOf(Prg, LogicalComplement, false)
    else if arg == "--chr-logical-complement" then TypeOf(Chr, LogicalComplement, false)
    else if arg == "-pb" || arg == "--prg-start" then StartOf(Prg)
    else if arg == "-cb" || arg == "--chr-start" then StartOf(Chr)
    else if arg == "-e" || arg == "--stop" then StopOf(Base)
    else if arg == "-pe" || arg == "--prg-stop" then StopOf(Prg)
    else if arg == "-ce" || arg == "--chr-stop" then StopOf(Chr)
    else if arg == "-o" || arg == "--out" then Out
    else Ignored
  }

  /** Flags that read the next argument. */
  predicate TakesValue(f: Flag)
  {
    f.StepOf? || f.StartOf? || f.StopOf? || f.Out? || (f.TypeOf? && f.withValue)
  }

  /** The region a flag sets, if it sets one. */
  predicate Sets(f: Flag, t: Target)
  {
    !f.Out? && !f.Ignored? && f.target == t
  }

  function RegionOf(info: NesInfo, t: Target): Region
    requires t != Base
  {
    if t == Prg then info.prg else info.chr
  }

  function WithRegion(info: NesInfo, t: Target, r: Region): NesInfo
    requires t != Base
  {
    if t == Prg then info.(prg := r) else info.(chr := r)
  }

  /** The effect of a flag that takes no value. */
  function Plain(info: NesInfo, f: Flag): NesInfo
    requires !TakesValue(f)
  {
    match f
    case TypeOf(Base, k, _) => info.(base := info.base.(kind := k))
    case TypeOf(t, k, _) => WithRegion(info, t, RegionOf(info, t).(kind := k))
    case _ => info
  }

  /** The effect of a flag with value `v`; a region's step also turns it on. */
  function WithValue(info: NesInfo, f: Flag, v: string, toInt: string -> u32): NesInfo
    requires TakesValue(f)
  {
    var n := toInt(v);
    match f
    case Out => info.(base := info.base.(outfile := v))
    case StepOf(Base) => info.(base := info.base.(step := n))
    case StepOf(t) => WithRegion(info, t, RegionOf(info, t).(step := n, enabled := true))
    case TypeOf(Base, k, _) => info.(base := info.base.(kind := k, value := n))
    case TypeOf(t, k, _) => WithRegion(info, t, RegionOf(info, t).(kind := k, value := n))
    case StartOf(Base) => info.(base := info.base.(start := n))
    case StartOf(t) => WithRegion(info, t, RegionOf(info, t).(start := n))
    case StopOf(Base) => info.(base := info.base.(end := n))
    case StopOf(t) => WithRegion(info, t, RegionOf(info, t).(end := n))
  }

  /** One pass of the loop body at the head of `rest`: the new options and how
    * many arguments were read; None when a value flag is the last argument
    * (the source reads args[args.size()]). */
  function Step(info: NesInfo, f: Flag, rest: seq<string>, toInt: string -> u32): (r: Option<(NesInfo, nat)>)
    requires rest != []
    ensures r.Some? ==> 1 <= r.value.1 <= |rest|
    ensures r.None? <==> TakesValue(f) && |rest| < 2
  {
    if !TakesValue(f) then Some((Plain(info, f), 1))
    else if |rest| < 2 then None
    else Some((WithValue(info, f, rest[1], toInt), 2))
  }

  /** The constructor's loop over the arguments still to read. */
  function ParseFrom(info: NesInfo, rest: seq<string>, toInt: string -> u32): Option<NesInfo>
    decreases |rest|
  {
    if rest == [] then Some(info)
    else match Step(info, Classify(rest[0]), rest, toInt)
      case None => None
      case Some((next, n)) => ParseFrom(next, rest[n..], toInt)
  }

  /** NESCorruptionInfo(args). */
  function Parse(args: seq<string>, toInt: string -> u32): Option<NesInfo>
  {
    ParseFrom(Defaults, args, toInt)
  }

  lemma ParseFromStep(info: NesInfo, f: Flag, args: seq<string>, i: nat, next: NesInfo, j: nat, toInt: string -> u32)
    requires i < j <= |args| && f == Classify(args[i])
    requires Step(info, f, args[i..], toInt) == Some((next, j - i))
    ensures ParseFrom(info, args[i..], toInt) == ParseFrom(next, args[j..], toInt)
  {
    assert args[i..][0] == args[i];
    assert args[i..][j - i..] == args[j..];
  }

  lemma ParseFromNone(info: NesInfo, f: Flag, args: seq<string>, i: nat, toInt: string -> u32)
    requires i < |args| && f == Classify(args[i])
    requires Step(info, f, args[i..], toInt).None?
    ensures ParseFrom(info, args[i..], toInt).None?
  {
    assert args[i..][0] == args[i];
  }

  /** The constructor's loop, index by index. */
  method ParseArgs(args: seq<string>, toInt: string -> u32) returns (r: Option<NesInfo>)
    ensures r == Parse(args, toInt)
  {
    var info := Defaults;
    var i := 0;
    ghost var want := Parse(args, toInt);
    assert args[i..] == args;
    while i < |args|
      invariant 0 <= i <= |args|
      invariant ParseFrom(info, args[i..], toInt) == want
      decreases |args| - i
    {
      var st := NextArg(info, args, i, toInt);
      if st.None? {
        return None;
      }
      info, i := st.value.0, st.value.1;
    }
    r := Some(info);
  }

  /** One turn of the loop: the options and the index after the argument at i. */
  method NextArg(info: NesInfo, args: seq<string>, i: nat, toInt: string -> u32) returns (r: Option<(NesInfo, nat)>)
    requires i < |args|
    ensures r.None? ==> ParseFrom(info, args[i..], toInt).None?
    ensures r.Some? ==> i < r.value.1 <= |args| && ParseFrom(info, args[i..], toInt) == ParseFrom(r.value.0, args[r.value.1..], toInt)
  {
    var f := Classify(args[i]);
    var st := ReadArg(info, f, args, i, toInt);
    if st.None? {
      ParseFromNone(info, f, args, i, toInt);
      return None;
    }
    ParseFromStep(info, f, args, i, st.value.0, i + st.value.1, toInt);
    r := Some((st.value.0, i + st.value.1));
  }

  /** The loop body for the argument at i, which Classify maps to f. */
  method ReadArg(info: NesInfo, f: Flag, args: seq<string>, i: nat, toInt: string -> u32) returns (r: Option<(NesInfo, nat)>)
    requires i < |args|
    ensures r == Step(info, f, args[i..], toInt)
  {
    ghost var rest := args[i..];
    if !TakesValue(f) {
      return Some((Plain(info, f), 1));
    }
    if i + 1 >= |args| {
      return None;
    }
    assert rest[1] == args[i + 1];
    r := Some((WithValue(info, f, args[i + 1], toInt), 2));
  }

  /** A complete reading of a prefix is a prefix of the reading of the whole:
    * the rest is read from the options the prefix produced. */
  lemma {:induction false} ParseConcat(info: NesInfo, a: seq<string>, b: seq<string>, toInt: string -> u32)
    requires ParseFrom(info, a, toInt).Some?
    ensures ParseFrom(info, a + b, toInt) == ParseFrom(ParseFrom(info, a, toInt).value, b, toInt)
    decreases |a|
  {
    if a == [] {
      assert a + b == b;
    } else {
      var f := Classify(a[0]);
      var st := Step(info, f, a, toInt).value;
      var next, n := st.0, st.1;
      assert (a + b)[0] == a[0];
      if TakesValue(f) {
        assert (a + b)[1] == a[1];
      }
      assert Step(info, f, a + b, toInt) == Some((next, n));
      assert (a + b)[n..] == a[n..] + b;
      ParseConcat(next, a[n..], b, toInt);
    }
  }

  /** The last flag wins: a flag and its value appended to a complete argument
    * list set exactly what that flag sets. */
  lemma LastFlagWins(args: seq<string>, flag: string, v: string, toInt: string -> u32)
    requires Parse(args, toInt).Some? && TakesValue(Classify(flag))
    ensures Parse(args + [flag, v], toInt) == Some(WithValue(Parse(args, toInt).value, Classify(flag), v, toInt))
  {
    ParseConcat(Defaults, args, [flag, v], toInt);
    assert [flag, v][2..] == [];
  }

  /** A region's fields change only through flags for that region: when no
    * argument is one of them, the region keeps the options it had (and the
    * base fields likewise keep theirs when no argument is a base flag). */
  lemma {:induction false} OnlyItsFlags(info: NesInfo, rest: seq<string>, t: Target, toInt: string -> u32)
    requires ParseFrom(info, rest, toInt).Some?
    requires forall a :: a in rest ==> !Sets(Classify(a), t)
    ensures t != Base ==> RegionOf(ParseFrom(info, rest, toInt).value, t) == RegionOf(info, t)
    ensures t == Base ==> ParseFrom(info, rest, toInt).value.base.(outfile := "") == info.base.(outfile := "")
    decreases |rest|
  {
    if rest != [] {
      var st := Step(info, Classify(rest[0]), rest, toInt).value;
      var next, n := st.0, st.1;
      assert forall a :: a in rest[n..] ==> a in rest;
      OnlyItsFlags(next, rest[n..], t, toInt);
    }
  }

  /** Once a region is switched on, later arguments never switch it off. */
  lemma {:induction false} StaysEnabled(info: NesInfo, rest: seq<string>, t: Target, toInt: string -> u32)
    requires ParseFrom(info, rest, toInt).Some? && t != Base && RegionOf(info, t).enabled
    ensures RegionOf(ParseFrom(info, rest, toInt).value, t).enabled
    decreases |rest|
  {
    if rest != [] {
      var st := Step(info, Classify(rest[0]), rest, toInt).value;
      StaysEnabled(st.0, rest[st.1..], t, toInt);
    }
  }

  /** A region is switched on only by its step flag: with none in the
    * arguments, it stays off. */
  lemma {:induction false} EnabledByStep(info: NesInfo, rest: seq<string>, t: Target, toInt: string -> u32)
    requires ParseFrom(info, rest, toInt).Some? && t != Base && !RegionOf(info, t).enabled
    requires forall a :: a in rest ==> Classify(a) != StepOf(t)
    ensures !RegionOf(ParseFrom(info, rest, toInt).value, t).enabled
    decreases |rest|
  {
    if rest != [] {
      var st := Step(info, Classify(rest[0]), rest, toInt).value;
      var next, n := st.0, st.1;
      assert forall a :: a in rest[n..] ==> a in rest;
      EnabledByStep(next, rest[n..], t, toInt);
    }
  }
}
