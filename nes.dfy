// NESCorruption (extensions/nes/nes.h and nes.cpp): an iNES ROM is a 16-byte
// header, PRG-ROM banks of 0x4000 bytes, then CHR-ROM. PRG-ROM holds 6502 code,
// so its pass asks valid_byte before every write; CHR-ROM holds tiles, and its
// pass rewrites 8-byte blocks without asking.

module Nes {
  import opened Bytes
  import opened Config
  import opened NesConfig
  import Engine
  import Util

  const HeaderSize: nat := 0x10
  const BankSize: nat := 0x4000

  /** "NES" followed by MS-DOS end-of-file. */
  const Magic: seq<byte> := [0x4E, 0x45, 0x53, 0x1A]

  /** valid(): the ROM is longer than the header and begins with the magic. */
  predicate Valid(rom: seq<byte>)
  {
    |rom| > HeaderSize && rom[..4] == Magic
  }

  /** What initialize() reads from the header. */
  datatype Layout = Layout(prgRom: byte, chrRom: byte, chr: bool, prgStart: nat, chrStart: nat)

  /** initialize(): an invalid ROM raises InvalidNESRomException (None). */
  function Initialize(rom: seq<byte>): (r: Option<Layout>)
    ensures r.Some? <==> Valid(rom)
    ensures r.Some? ==> r.value.prgStart == HeaderSize && r.value.chrStart == HeaderSize + rom[4] * BankSize
    ensures r.Some? ==> (r.value.chr <==> r.value.chrRom != 0)
  {
    if !Valid(rom) then None
    else Some(Layout(rom[4], rom[5], rom[5] != 0, HeaderSize, rom[4] * BankSize + HeaderSize))
  }

  /** The 6502 opcodes that are never written into PRG-ROM: BRK, the KIL
    * opcodes, and the stack pushes and pulls. */
  const Invalid: seq<byte> := [
    0x00, 0x02, 0x08, 0x12, 0x22, 0x28, 0x32, 0x42, 0x48,
    0x52, 0x62, 0x68, 0x72, 0x78, 0x92, 0xB2, 0xD2, 0xF2]

  /** Bytes a write must not follow: the whole list for the byte being
    * replaced, from the branches on for the byte before it, and the jumps for
    * the byte two before. */
  const Protect: seq<byte> := [
    0x48, 0x08, 0x68, 0x28, 0x78, 0x40, 0x60, 0x00,
    0x90, 0xB0, 0xF0, 0x30, 0xD0, 0x10, 0x50, 0x70,
    0x4C, 0x6C, 0x20]

  /** rom[loc - back] is in `list`, when that position is in the ROM. A
    * position before index 0, where the source's uint32_t index wraps and the
    * read is undefined, counts as no match. */
  predicate Before(rom: seq<byte>, loc: nat, back: nat, list: seq<byte>)
  {
    back <= loc < |rom| + back && rom[loc - back] in list
  }

  /** valid_byte(byte, location): anything goes in CHR-ROM; in PRG-ROM the byte
    * must not be one of the invalid opcodes, and the bytes at and just before
    * the location must not be protected. */
  predicate ValidByte(rom: seq<byte>, b: byte, loc: nat, chrStart: nat)
  {
    if loc >= chrStart then true
    else if b in Invalid then false
    else !(Before(rom, loc, 0, Protect) || Before(rom, loc, 1, Protect[8..]) || Before(rom, loc, 2, Protect[16..]))
  }

  function Validator(chrStart: nat): Engine.Validator
  {
    (rom: seq<byte>, b: byte, loc: nat) => ValidByte(rom, b, loc, chrStart)
  }

  /** The loop of corrupt_prg as written: Shift, Swap and Add read rom[i + value]
    * without a bound check, Swap exchanges, and Add asks valid_byte about
    * rom[i + value] + value while it writes rom[i] + value. */
  const PrgLoop := Engine.NesPrgLoop

  /** The corrected loop: the same, but Add asks about the byte it writes. */
  const PrgLoopCorrected := Engine.Variant(false, true, true, false)

  /** corrupt_prg's bounds: i < chr_start - prg_step, a uint32_t difference that
    * wraps when the step is larger, and i < prg_end. */
  function PrgPass(r: Region, chrStart: nat, variant: Engine.Variant): (p: Engine.Pass)
    ensures p.limit <= r.end && p.limit <= Wrap32(chrStart - r.step)
  {
    var bound := Wrap32(chrStart - r.step);
    Engine.Pass(r.kind, r.value, r.step, if bound < r.end then bound else r.end, variant)
  }

  /** corrupt_prg starts at prg_start + the option's start, as a uint32_t. */
  function PrgFrom(l: Layout, r: Region): nat
  {
    Wrap32(l.prgStart + r.start)
  }

  /** valid_byte only accepts bytes outside the invalid list in PRG-ROM. */
  lemma ValidByteKeepsOpcodes(chrStart: nat)
    ensures Engine.Promises(Validator(chrStart), (b: byte, loc: nat) => loc >= chrStart || b !in Invalid)
  {
  }

  /** The corrected PRG pass never leaves an invalid opcode in PRG-ROM where
    * it changed a byte. */
  lemma PrgKeepsOpcodes(rom: seq<byte>, l: Layout, r: Region, draw: nat -> byte, drawn: nat, k: nat)
    requires Engine.Terminates(PrgPass(r, l.chrStart, PrgLoopCorrected)) && k < |rom| && k < l.chrStart
    ensures var out := Engine.Run(rom, PrgFrom(l, r), PrgPass(r, l.chrStart, PrgLoopCorrected), Validator(l.chrStart), draw, drawn, 0).rom;
      out[k] != rom[k] ==> out[k] !in Invalid
  {
    ValidByteKeepsOpcodes(l.chrStart);
    Engine.RunAccepted(rom, PrgFrom(l, r), PrgPass(r, l.chrStart, PrgLoopCorrected), Validator(l.chrStart), draw, drawn, 0,
      (b: byte, loc: nat) => loc >= l.chrStart || b !in Invalid, k);
  }

  /** The PRG pass as written keeps the same promise for every corruption but
    * Add, the one that asks about a byte other than the one it writes. */
  lemma PrgKeepsOpcodesUnlessAdd(rom: seq<byte>, l: Layout, r: Region, draw: nat -> byte, drawn: nat, k: nat)
    requires Engine.Terminates(PrgPass(r, l.chrStart, PrgLoop)) && k < |rom| && k < l.chrStart && !r.kind.Add?
    ensures var out := Engine.Run(rom, PrgFrom(l, r), PrgPass(r, l.chrStart, PrgLoop), Validator(l.chrStart), draw, drawn, 0).rom;
      out[k] != rom[k] ==> out[k] !in Invalid
  {
    ValidByteKeepsOpcodes(l.chrStart);
    Engine.RunAccepted(rom, PrgFrom(l, r), PrgPass(r, l.chrStart, PrgLoop), Validator(l.chrStart), draw, drawn, 0,
      (b: byte, loc: nat) => loc >= l.chrStart || b !in Invalid, k);
  }

  /** The ROM of the counterexample: a 0x14-byte PRG whose byte 0x10 is the
    * opcode 0x07, followed by 0x03. */
  function AddRom(): (rom: seq<byte>)
    ensures |rom| == 0x14 && rom[0x10] == 0x07 && rom[0x11] == 0x03
  {
    seq(0x10, k => 0x01) + [0x07, 0x03, 0x01, 0x01]
  }

  /** At 0x10 of that ROM valid_byte accepts 0x04, which the as-written
    * check asks about, and refuses 0x08, which Add writes. */
  lemma AddChecks()
    ensures ValidByte(AddRom(), 0x04, 0x10, 0x14) && !ValidByte(AddRom(), 0x08, 0x10, 0x14)
  {
    var rom := AddRom();
    assert rom[0x10] == 0x07 && rom[0x0F] == 0x01 && rom[0x0E] == 0x01;
    assert Protect[8..] == [0x90, 0xB0, 0xF0, 0x30, 0xD0, 0x10, 0x50, 0x70, 0x4C, 0x6C, 0x20];
    assert Protect[16..] == [0x4C, 0x6C, 0x20];
    assert Invalid[2] == 0x08;
  }

  /** As written: an Add of 1 over 0x10 .. 0x10 checks 0x03 + 1 and writes
    * 0x07 + 1 = 0x08, an opcode ValidByte refuses. */
  lemma AddWritesInvalid()
    ensures var out := Engine.Run(AddRom(), 0x10, Engine.Pass(Add, 1, 1, 0x11, PrgLoop), Validator(0x14), (n: nat) => 0, 0, 0).rom;
      out[0x10] == 0x08 && !ValidByte(AddRom(), 0x08, 0x10, 0x14)
  {
    var rom := AddRom();
    var draw := (n: nat) => 0;
    var p := Engine.Pass(Add, 1, 1, 0x11, PrgLoop);
    AddChecks();
    var next := rom[0x10 := 0x08];
    assert Engine.Apply(rom, 0x10, p, Validator(0x14), draw, 0) == Engine.Done(next, 0, true);
    assert Engine.Run(next, 0x11, p, Validator(0x14), draw, 0, 1).rom == next;
  }

  /** Corrected: the same pass checks the byte it writes, refuses 0x08 and
    * leaves the opcode alone. */
  lemma AddKeepsOpcode()
    ensures Engine.Run(AddRom(), 0x10, Engine.Pass(Add, 1, 1, 0x11, PrgLoopCorrected), Validator(0x14), (n: nat) => 0, 0, 0).rom[0x10] == 0x07
  {
    var rom := AddRom();
    var draw := (n: nat) => 0;
    var q := Engine.Pass(Add, 1, 1, 0x11, PrgLoopCorrected);
    AddChecks();
    assert Engine.Apply(rom, 0x10, q, Validator(0x14), draw, 0) == Engine.Done(rom, 0, false);
    assert Engine.Run(rom, 0x11, q, Validator(0x14), draw, 0, 0).rom == rom;
  }

  // ---------------------------------------------------------------------------
  // CHR-ROM

  /** corrupt_chr's bounds: i < rom.size() - chr_step, a size_t difference that
    * no uint32_t index reaches when the step is larger than the ROM, and
    * i < chr_start + chr_end as a uint32_t; an end of UINT32_MAX is first
    * lowered by chr_start so that the sum does not wrap. */
  function ChrPass(size: nat, r: Region, chrStart: nat): (p: Engine.Pass)
  {
    var end := if r.end == U32_MAX then Wrap32(r.end - chrStart) else r.end;
    var bound := Wrap32(chrStart + end);
    Engine.Pass(r.kind, r.value, r.step,
      if r.step <= size && size - r.step < bound then size - r.step else bound, Engine.BaseLoop)
  }

  /** The byte loop of every corruption but Shift and Swap: positions from
    * `at` while below the ROM's size and `stop`, each rewritten on its own
    * (Random draws one byte per position). */
  function Bytes8(rom: seq<byte>, at: nat, stop: nat, kind: CorruptionType, v: u32, draw: nat -> byte, drawn: nat): (r: (seq<byte>, nat))
    ensures |r.0| == |rom| && drawn <= r.1
    decreases stop - at
  {
    if at >= |rom| || at >= stop then (rom, drawn)
    else if kind.Random? then Bytes8(rom[at := draw(drawn)], at + 1, stop, kind, v, draw, drawn + 1)
    else Bytes8(rom[at := Engine.PointOp(kind, v, rom[at])], at + 1, stop, kind, v, draw, drawn)
  }

  /** Swap's byte loop: rom[index] and rom[index + value] exchanged for each
    * index from `at` below `stop`, with no bound check (None). */
  function SwapBytes(rom: seq<byte>, at: nat, stop: nat, v: u32): (r: Option<seq<byte>>)
    ensures r.Some? ==> |r.value| == |rom|
    decreases stop - at
  {
    if at >= stop then Some(rom)
    else
      var j := Wrap32(at + v);
      if at >= |rom| || j >= |rom| then None
      else SwapBytes(rom[j := rom[at]][at := rom[j]], at + 1, stop, v)
  }

  /** The loop body at i: the 8-byte block from i, counted whatever happens.
    * Shift copies the block at i + value over it (forward, so an overlap reads
    * only bytes not yet written); its end is iterator arithmetic and does not
    * wrap, while the byte loops stop at i + 8 as a uint32_t. */
  function ChrBlock(rom: seq<byte>, i: nat, p: Engine.Pass, draw: nat -> byte, drawn: nat): (r: Engine.Act)
    ensures r.Done? ==> |r.rom| == |rom| && drawn <= r.drawn && r.hit
    ensures r.Break? <==> p.kind == Unset
  {
    var stop := Wrap32(i + 8);
    if p.kind == Unset then Engine.Break
    else if p.kind.Shift? then
      if i + p.value + 8 > |rom| then Engine.Fault
      else Engine.Done(rom[..i] + rom[i + p.value..i + p.value + 8] + rom[i + 8..], drawn, true)
    else if p.kind.Swap? then
      match SwapBytes(rom, i, stop, p.value)
      case None => Engine.Fault
      case Some(next) => Engine.Done(next, drawn, true)
    else
      var (next, used) := Bytes8(rom, i, stop, p.kind, p.value, draw, drawn);
      Engine.Done(next, used, true)
  }

  /** corrupt_chr's loop from i on. */
  function ChrRun(rom: seq<byte>, i: nat, p: Engine.Pass, draw: nat -> byte, drawn: nat, hits: nat): (r: Engine.Outcome)
    requires Engine.Terminates(p)
    ensures |r.rom| == |rom| && hits <= r.hits && drawn <= r.drawn
    decreases p.limit - i
  {
    if i >= p.limit then Engine.Outcome(rom, drawn, hits, false)
    else match ChrBlock(rom, i, p, draw, drawn)
      case Break => Engine.Outcome(rom, drawn, hits, false)
      case Fault => Engine.Outcome(rom, drawn, hits, true)
      case Done(next, used, _) => ChrRun(next, Wrap32(i + p.step), p, draw, used, hits + 1)
  }

  /** Position k lies in the block of a visited i, blocks being disjoint. */
  predicate InBlock(k: nat, i: nat, p: Engine.Pass)
  {
    Covers(k, i, p.step, p.limit)
  }

  /** k is within 8 bytes after one of i, i + s, i + 2s, ... below limit. */
  predicate Covers(k: nat, i: nat, s: nat, limit: nat)
  {
    s >= 8 && i <= k && (k - i) % s < 8 && k - (k - i) % s < limit
  }

  lemma Bytes8Pointwise(rom: seq<byte>, at: nat, stop: nat, kind: CorruptionType, v: u32, draw: nat -> byte, drawn: nat, k: nat)
    requires Engine.IsPointwise(kind) && k < |rom|
    ensures Bytes8(rom, at, stop, kind, v, draw, drawn).0[k] == if at <= k < stop then Engine.PointOp(kind, v, rom[k]) else rom[k]
    ensures Bytes8(rom, at, stop, kind, v, draw, drawn).1 == drawn
    decreases stop - at
  {
    if at < |rom| && at < stop {
      Bytes8Pointwise(rom[at := Engine.PointOp(kind, v, rom[at])], at + 1, stop, kind, v, draw, drawn, k);
    }
  }

  /** Once past position k's block, the blocks visited from i + step are those
    * visited from i. */
  lemma InBlockShift(k: nat, i: nat, s: nat, limit: nat)
    requires s >= 8 && !(i <= k < i + 8)
    ensures Covers(k, i + s, s, limit) == Covers(k, i, s, limit)
  {
    if k >= i + s {
      var m := k - i - s;
      Engine.ModStep(m, s);
      assert k - i == m + s && k - (i + s) == m;
    } else if k >= i {
      Util.DivModOf(0, k - i, s);
      assert (k - i) % s == k - i;
    }
  }

  /** The block at i with the byte rewritten on its own. */
  lemma BlockPointwise(rom: seq<byte>, i: nat, p: Engine.Pass, draw: nat -> byte, drawn: nat, k: nat)
    requires Engine.Terminates(p) && Engine.IsPointwise(p.kind) && p.step >= 8 && i < p.limit && k < |rom|
    ensures ChrBlock(rom, i, p, draw, drawn).Done?
    ensures ChrBlock(rom, i, p, draw, drawn).drawn == drawn
    ensures ChrBlock(rom, i, p, draw, drawn).rom[k] == if i <= k < i + 8 then Engine.PointOp(p.kind, p.value, rom[k]) else rom[k]
  {
    assert Wrap32(i + 8) == i + 8;
    Bytes8Pointwise(rom, i, i + 8, p.kind, p.value, draw, drawn, k);
  }

  lemma CoversHere(k: nat, i: nat, s: nat, limit: nat)
    requires s >= 8 && i <= k < i + 8 && i < limit
    ensures Covers(k, i, s, limit) && !Covers(k, i + s, s, limit)
  {
    Util.DivModOf(0, k - i, s);
  }

  lemma CoversNone(k: nat, i: nat, s: nat, limit: nat)
    requires s >= 8 && i >= limit
    ensures !Covers(k, i, s, limit)
  {
    if i <= k {
      var q, r := (k - i) / s, (k - i) % s;
      assert k - i == q * s + r;
      assert q * s >= 0;
    }
  }

  /** With disjoint blocks, a pass that rewrites each byte on its own applies
    * it once to every byte of every visited block, and to nothing else. */
  lemma {:induction false} ChrPointwise(rom: seq<byte>, i: nat, p: Engine.Pass, draw: nat -> byte, drawn: nat, hits: nat, k: nat)
    requires Engine.Terminates(p) && Engine.IsPointwise(p.kind) && p.step >= 8 && k < |rom|
    ensures ChrRun(rom, i, p, draw, drawn, hits).rom[k] ==
      if InBlock(k, i, p) then Engine.PointOp(p.kind, p.value, rom[k]) else rom[k]
    decreases p.limit - i
  {
    if i < p.limit {
      var act := ChrBlock(rom, i, p, draw, drawn);
      BlockPointwise(rom, i, p, draw, drawn, k);
      var next, i', hits' := act.rom, i + p.step, hits + 1;
      assert Wrap32(i + p.step) == i';
      ChrPointwise(next, i', p, draw, drawn, hits', k);
      if i <= k < i + 8 {
        CoversHere(k, i, p.step, p.limit);
      } else {
        InBlockShift(k, i, p.step, p.limit);
      }
    } else {
      CoversNone(k, i, p.step, p.limit);
    }
  }

  /** Every visited block is counted once: when the pass is not cut short, the
    * count is the number of positions visited. */
  lemma {:induction false} ChrCounts(rom: seq<byte>, i: nat, p: Engine.Pass, draw: nat -> byte, drawn: nat, hits: nat)
    requires Engine.Terminates(p) && p.kind != Unset
    requires !ChrRun(rom, i, p, draw, drawn, hits).fault
    ensures ChrRun(rom, i, p, draw, drawn, hits).hits == hits + Engine.Visits(i, p)
    decreases p.limit - i
  {
    if i < p.limit {
      var act := ChrBlock(rom, i, p, draw, drawn);
      ChrCounts(act.rom, Wrap32(i + p.step), p, draw, act.drawn, hits + 1);
    }
  }

  // ---------------------------------------------------------------------------
  // The whole run

  /** corrupt_prg on the ROM as it stands. */
  function PrgResult(rom: seq<byte>, l: Layout, r: Region, draw: nat -> byte, drawn: nat): (o: Res<(seq<byte>, nat)>)
    ensures o.Ok? ==> |o.value.0| == |rom| && drawn <= o.value.1
    ensures o.Unmodelled? <==> !Engine.Terminates(PrgPass(r, l.chrStart, PrgLoop))
  {
    var p := PrgPass(r, l.chrStart, PrgLoop);
    if !Engine.Terminates(p) then Unmodelled
    else
      var o := Engine.Run(rom, PrgFrom(l, r), p, Validator(l.chrStart), draw, drawn, 0);
      if o.fault then Undefined else Ok((o.rom, o.drawn))
  }

  /** corrupt_chr: nothing without CHR-ROM. */
  function ChrResult(rom: seq<byte>, l: Layout, r: Region, draw: nat -> byte, drawn: nat): (o: Res<(seq<byte>, nat)>)
    ensures o.Ok? ==> |o.value.0| == |rom| && drawn <= o.value.1
    ensures !l.chr ==> o == Ok((rom, drawn))
  {
    var p := ChrPass(|rom|, r, l.chrStart);
    if !l.chr then Ok((rom, drawn))
    else if !Engine.Terminates(p) then Unmodelled
    else
      var o := ChrRun(rom, Wrap32(l.chrStart + r.start), p, draw, drawn, 0);
      if o.fault then Undefined else Ok((o.rom, o.drawn))
  }

  /** corrupt(): the PRG pass if its step was given, then the CHR pass if its
    * step was given, on the ROM the PRG pass left. */
  function Corrupted(rom: seq<byte>, l: Layout, info: NesInfo, draw: nat -> byte, drawn: nat): (o: Res<(seq<byte>, nat)>)
    ensures o.Ok? ==> |o.value.0| == |rom| && drawn <= o.value.1
    ensures !info.prg.enabled && !info.chr.enabled ==> o == Ok((rom, drawn))
  {
    var afterPrg := if info.prg.enabled then PrgResult(rom, l, info.prg, draw, drawn) else Ok((rom, drawn));
    match afterPrg
    case Ok((mid, d)) => if info.chr.enabled then ChrResult(mid, l, info.chr, draw, d) else afterPrg
    case _ => afterPrg
  }

  /** An NES ROM being corrupted in place. */
  class NesCorruption {
    const rom: array<byte>
    const layout: Layout
    const info: NesInfo
    var drawn: nat

    /** initialize(): only a valid ROM makes an object. */
    constructor(rom: array<byte>, info: NesInfo)
      requires Valid(rom[..])
      ensures this.rom == rom && layout == Initialize(rom[..]).value && this.info == info && drawn == 0
    {
      this.rom := rom;
      this.layout := Initialize(rom[..]).value;
      this.info := info;
      drawn := 0;
    }

    /** corrupt_prg, through the guarded loop. */
    method CorruptPrg(draw: nat -> byte) returns (fault: bool)
      requires Engine.Terminates(PrgPass(info.prg, layout.chrStart, PrgLoop))
      modifies rom, this`drawn
      ensures fault <==> PrgResult(old(rom[..]), layout, info.prg, draw, old(drawn)).Undefined?
      ensures !fault ==> PrgResult(old(rom[..]), layout, info.prg, draw, old(drawn)) == Ok((rom[..], drawn))
    {
      var loop := new Engine.Corruption(rom, info.base, drawn);
      var count;
      count, fault := loop.RunPass(PrgFrom(layout, info.prg), PrgPass(info.prg, layout.chrStart, PrgLoop), Validator(layout.chrStart), draw);
      drawn := loop.drawn;
    }

    /** corrupt_chr's loop. */
    method CorruptChr(draw: nat -> byte) returns (corruptions: nat, fault: bool)
      requires layout.chr && Engine.Terminates(ChrPass(rom.Length, info.chr, layout.chrStart))
      modifies rom, this`drawn
      ensures var o := ChrRun(old(rom[..]), Wrap32(layout.chrStart + info.chr.start), ChrPass(rom.Length, info.chr, layout.chrStart), draw, old(drawn), 0);
        rom[..] == o.rom && drawn == o.drawn && corruptions == o.hits && fault == o.fault
    {
      var p := ChrPass(rom.Length, info.chr, layout.chrStart);
      var i := Wrap32(layout.chrStart + info.chr.start);
      corruptions, fault := 0, false;
      ghost var want := ChrRun(old(rom[..]), Wrap32(layout.chrStart + info.chr.start), p, draw, old(drawn), 0);
      while i < p.limit
        invariant ChrRun(rom[..], i, p, draw, drawn, corruptions) == want
        decreases p.limit - i
      {
        var act := Block(i, p, draw);
        if act.Break? {
          return;
        }
        if act.Fault? {
          fault := true;
          return;
        }
        corruptions := corruptions + 1;
        i := Wrap32(i + p.step);
      }
    }

    /** The loop body at i. */
    method Block(i: nat, p: Engine.Pass, draw: nat -> byte) returns (act: Engine.Act)
      modifies rom, this`drawn
      ensures act == ChrBlock(old(rom[..]), i, p, draw, old(drawn))
      ensures act.Done? ==> rom[..] == act.rom && drawn == act.drawn
      ensures !act.Done? ==> rom[..] == old(rom[..]) && drawn == old(drawn)
    {
      var stop := Wrap32(i + 8);
      if p.kind == Unset {
        return Engine.Break;
      }
      if p.kind.Shift? {
        if i + p.value + 8 > rom.Length {
          return Engine.Fault;
        }
        ShiftBlock(i, p.value);
        return Engine.Done(rom[..], drawn, true);
      }
      if p.kind.Swap? {
        var ok := SwapBlock(i, stop, p.value);
        if !ok {
          return Engine.Fault;
        }
        return Engine.Done(rom[..], drawn, true);
      }
      ByteBlock(i, stop, p.kind, p.value, draw);
      return Engine.Done(rom[..], drawn, true);
    }

    /** std::copy of the 8 bytes at i + value over the 8 bytes at i. */
    method ShiftBlock(i: nat, v: nat)
      requires i + v + 8 <= rom.Length
      modifies rom
      ensures rom[..] == old(rom[..i] + rom[i + v..i + v + 8] + rom[i + 8..])
    {
      ghost var want := rom[..i] + rom[i + v..i + v + 8] + rom[i + 8..];
      assert |want| == rom.Length;
      assert forall j :: 0 <= j < rom.Length ==> want[j] == if i <= j < i + 8 then rom[j + v] else rom[j];
      var k := 0;
      while k < 8
        invariant 0 <= k <= 8
        invariant forall j :: 0 <= j < rom.Length ==> rom[j] == if i <= j < i + k then old(rom[j + v]) else old(rom[j])
      {
        rom[i + k] := rom[i + v + k];
        k := k + 1;
      }
      assert forall j :: 0 <= j < rom.Length ==> rom[..][j] == want[j];
    }

    /** Swap's byte loop; false when an index leaves the ROM (the write there
      * is undefined, and nothing is written in the model). */
    method SwapBlock(i: nat, stop: nat, v: u32) returns (ok: bool)
      modifies rom
      ensures var r := SwapBytes(old(rom[..]), i, stop, v); ok == r.Some? && (ok ==> rom[..] == r.value) && (!ok ==> rom[..] == old(rom[..]))
    {
      var result := SwapBytes(rom[..], i, stop, v);
      if result.None? {
        return false;
      }
      var index := i;
      while index < stop
        invariant SwapBytes(rom[..], index, stop, v) == result
        decreases stop - index
      {
        var j := Wrap32(index + v);
        var temp := rom[j];
        rom[j] := rom[index];
        rom[index] := temp;
        index := index + 1;
      }
      return true;
    }

    /** The byte loop of the other corruptions. */
    method ByteBlock(i: nat, stop: nat, kind: CorruptionType, v: u32, draw: nat -> byte)
      modifies rom, this`drawn
      ensures (rom[..], drawn) == Bytes8(old(rom[..]), i, stop, kind, v, draw, old(drawn))
    {
      var index := i;
      ghost var want := Bytes8(old(rom[..]), i, stop, kind, v, draw, old(drawn));
      while index < rom.Length && index < stop
        invariant Bytes8(rom[..], index, stop, kind, v, draw, drawn) == want
        decreases stop - index
      {
        if kind.Random? {
          rom[index] := draw(drawn);
          drawn := drawn + 1;
        } else {
          rom[index] := Engine.PointOp(kind, v, rom[index]);
        }
        index := index + 1;
      }
    }

    /** corrupt(): PRG first, then CHR, each when enabled. */
    method Corrupt(draw: nat -> byte) returns (r: Res<(seq<byte>, nat)>)
      modifies rom, this`drawn
      ensures r == Corrupted(old(rom[..]), layout, info, draw, old(drawn))
      ensures r.Ok? ==> r.value == (rom[..], drawn)
    {
      if info.prg.enabled {
        if !Engine.Terminates(PrgPass(info.prg, layout.chrStart, PrgLoop)) {
          return Unmodelled;
        }
        var fault := CorruptPrg(draw);
        if fault {
          return Undefined;
        }
      }
      if info.chr.enabled && layout.chr {
        if !Engine.Terminates(ChrPass(rom.Length, info.chr, layout.chrStart)) {
          return Unmodelled;
        }
        var count, fault := CorruptChr(draw);
        if fault {
          return Undefined;
        }
      }
      r := Ok((rom[..], drawn));
    }
  }
}
