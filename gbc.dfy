// The Game Boy (Color) extension: the cartridge header at 0x100..0x14F
// (extensions/gbc/gbc_header.cpp) and the LR35902 opcode guard valid_byte
// (extensions/gbc/gbc.cpp) that Corruption::corrupt asks before each write.

module Gbc {
  import opened Bytes
  import opened Config
  import Util
  import Engine

  // ---------------------------------------------------------------------------
  // The header

  /** GBCOffset::Start and GBCOffset::End: the header's bytes in the ROM. */
  const HeaderStart := 0x100
  const HeaderEnd := 0x14F

  /** The Nintendo logo every cartridge carries at 0x104. */
  const Logo: seq<byte> := [
    0xCE, 0xED, 0x66, 0x66, 0xCC, 0x0D, 0x00, 0x0B,
    0x03, 0x73, 0x00, 0x83, 0x00, 0x0C, 0x00, 0x0D,
    0x00, 0x08, 0x11, 0x1F, 0x88, 0x89, 0x00, 0x0E,
    0xDC, 0xCC, 0x6E, 0xE6, 0xDD, 0xDD, 0xD9, 0x99,
    0xBB, 0xBB, 0x67, 0x63, 0x6E, 0x0E, 0xEC, 0xCC,
    0xDD, 0xDC, 0x99, 0x9F, 0xBB, 0xB9, 0x33, 0x3E]

  /** GBCHeader: its copy of the header bytes, indexed by the GBCLocal offsets. */
  datatype Header = Header(bytes: seq<byte>)

  /** initialize: the header is ROM bytes [0x100, 0x14F). The copy is
    * unchecked, so the ROM must reach 0x14F. */
  function Initialize(rom: seq<byte>): (h: Header)
    requires |rom| >= HeaderEnd
    ensures |h.bytes| == HeaderEnd - HeaderStart
    ensures forall k :: 0 <= k < |h.bytes| ==> h.bytes[k] == rom[HeaderStart + k]
  {
    Header(rom[HeaderStart..HeaderEnd])
  }

  predicate WellFormed(h: Header)
  {
    |h.bytes| == HeaderEnd - HeaderStart
  }

  /** entry(): the 16-bit little-endian field at local 0x02. */
  function Entry(h: Header): (r: nat)
    requires WellFormed(h)
    ensures r < 0x1_0000 && ToLE(r, 2) == h.bytes[0x02..0x04]
  {
    Util.ReadLe(h.bytes, 0x02, 2)
  }

  /** valid_logo(): the 48 bytes at local 0x04 are the logo. */
  predicate ValidLogo(h: Header)
    requires WellFormed(h)
  {
    h.bytes[0x04..0x04 + |Logo|] == Logo
  }

  /** cgb() & 0x80: the Color-only flag. */
  predicate ColorFlag(h: Header)
    requires WellFormed(h)
  {
    h.bytes[0x43] >= 0x80
  }

  /** name(): the title at local 0x34, 11 bytes when the Color flag is set
    * (the last four then belong to the manufacturer code), else 15. */
  function Name(h: Header): (r: string)
    requires WellFormed(h)
    ensures |r| == if ColorFlag(h) then 11 else 15
    ensures forall k :: 0 <= k < |r| ==> r[k] as int == h.bytes[0x34 + k] as int
  {
    var n := if ColorFlag(h) then 0x0B else 0x0F;
    Chars(h.bytes[0x34..0x34 + n])
  }

  /** manufacturer(): the 32-bit little-endian field at local 0x3F, or 0
    * without the Color flag. */
  function Manufacturer(h: Header): (r: nat)
    requires WellFormed(h)
    ensures !ColorFlag(h) ==> r == 0
    ensures ColorFlag(h) ==> ToLE(r, 4) == h.bytes[0x3F..0x43]
  {
    if ColorFlag(h) then Util.ReadLe(h.bytes, 0x3F, 4) else 0
  }

  /** GBCCorruption::valid: the logo matches. */
  predicate Valid(rom: seq<byte>)
    requires |rom| >= HeaderEnd
  {
    ValidLogo(Initialize(rom))
  }

  /** The header's local fields are the cartridge's fields at their absolute
    * ROM offsets: entry at 0x102, logo at 0x104, title at 0x134, manufacturer
    * at 0x13F, flag at 0x143. */
  lemma HeaderInRom(rom: seq<byte>)
    requires |rom| >= HeaderEnd
    ensures Entry(Initialize(rom)) == Util.ReadLe(rom, 0x102, 2)
    ensures Valid(rom) <==> rom[0x104..0x134] == Logo
    ensures ColorFlag(Initialize(rom)) <==> rom[0x143] >= 0x80
    ensures ColorFlag(Initialize(rom)) ==> Manufacturer(Initialize(rom)) == Util.ReadLe(rom, 0x13F, 4)
    ensures Name(Initialize(rom)) == Chars(rom[0x134..0x134 + |Name(Initialize(rom))|])
  {
    var h := Initialize(rom);
    assert h.bytes[0x02..0x04] == rom[0x102..0x104];
    assert h.bytes[0x04..0x34] == rom[0x104..0x134];
    assert h.bytes[0x3F..0x43] == rom[0x13F..0x143];
    var n := |Name(h)|;
    assert h.bytes[0x34..0x34 + n] == rom[0x134..0x134 + n];
  }

  // ---------------------------------------------------------------------------
  // valid_byte

  /** GBCHeader::Start: code begins after the header. */
  const Start := 0x150

  /** GBAHeader::Size, compared by mistake for the GBA header's size; every
    * location it rejects is already below Start. */
  const GbaHeaderSize := 0xC0

  /** RET, RETI, the conditional returns and the RST instructions: one byte each. */
  const Ret: seq<byte> := [
    0xC0, 0xD0, 0xC7, 0xD7, 0xE7, 0xF7, 0xC8,
    0xD8, 0xC9, 0xD9, 0xCF, 0xDF, 0xEF, 0xFF]

  /** PUSH and POP: declared beside the others but never consulted. */
  const Stack: seq<byte> := [0xC1, 0xD1, 0xE1, 0xF1, 0xC5, 0xD5, 0xE5, 0xF5]

  /** The jumps, calls and relative jumps with their length in bytes, in the
    * map's key order. */
  const Branches: seq<(byte, nat)> := [
    (0x18, 2), (0x20, 2), (0x28, 2), (0x30, 2), (0x38, 2),
    (0xC2, 3), (0xC3, 3), (0xC4, 3), (0xCA, 3), (0xCC, 3),
    (0xCD, 3), (0xD2, 3), (0xD4, 3), (0xDA, 3), (0xDC, 3), (0xE9, 1)]

  /** The inner loop's test for every branch and every i below its length:
    * a branch opcode at loc - i, or the new byte being that opcode. */
  predicate NearBranch(rom: seq<byte>, b: byte, loc: nat)
  {
    exists j, i | 0 <= j < |Branches| && 0 <= i < Branches[j].1 :: Back(rom, loc, i) == Branches[j].0 || b == Branches[j].0
  }

  predicate ValidByte(rom: seq<byte>, b: byte, loc: nat)
  {
    if loc < Start then false
    else if loc < GbaHeaderSize then false
    else if (loc < |rom| && rom[loc] in Ret) || b in Ret then false
    else !NearBranch(rom, b, loc)
  }

  function Validator(): Engine.Validator
  {
    (rom: seq<byte>, b: byte, loc: nat) => ValidByte(rom, b, loc)
  }

  /** The instruction length of a jump or call opcode, 0 for the others. */
  function BranchLength(op: int): (n: nat)
    ensures n <= 3
  {
    if op in {0xC2, 0xC3, 0xC4, 0xCA, 0xCC, 0xCD, 0xD2, 0xD4, 0xDA, 0xDC} then 3
    else if op in {0x18, 0x20, 0x28, 0x30, 0x38} then 2
    else if op == 0xE9 then 1
    else 0
  }

  /** loc is the opcode or an operand of a jump or call starting `back` bytes
    * earlier. */
  predicate InBranch(rom: seq<byte>, loc: nat, back: nat)
  {
    back < BranchLength(Back(rom, loc, back))
  }

  lemma BranchesHaveLength(j: nat)
    requires j < |Branches|
    ensures BranchLength(Branches[j].0) == Branches[j].1
  {
  }

  /** The map entry of a branch opcode. */
  lemma FindBranch(op: int) returns (j: nat)
    requires BranchLength(op) > 0
    ensures j < |Branches| && Branches[j].0 as int == op && Branches[j].1 == BranchLength(op)
  {
    if op == 0x18 { j := 0; }
    else if op == 0x20 { j := 1; }
    else if op == 0x28 { j := 2; }
    else if op == 0x30 { j := 3; }
    else if op == 0x38 { j := 4; }
    else if op == 0xC2 { j := 5; }
    else if op == 0xC3 { j := 6; }
    else if op == 0xC4 { j := 7; }
    else if op == 0xCA { j := 8; }
    else if op == 0xCC { j := 9; }
    else if op == 0xCD { j := 10; }
    else if op == 0xD2 { j := 11; }
    else if op == 0xD4 { j := 12; }
    else if op == 0xDA { j := 13; }
    else if op == 0xDC { j := 14; }
    else { j := 15; }
  }

  lemma NearBranchOfParts(rom: seq<byte>, b: byte, loc: nat)
    requires BranchLength(b) > 0 || InBranch(rom, loc, 0) || InBranch(rom, loc, 1) || InBranch(rom, loc, 2)
    ensures NearBranch(rom, b, loc)
  {
    if BranchLength(b) > 0 {
      var j := FindBranch(b);
      assert 0 < Branches[j].1;
    } else {
      var i := if InBranch(rom, loc, 0) then 0 else if InBranch(rom, loc, 1) then 1 else 2;
      assert InBranch(rom, loc, i);
      var j := FindBranch(Back(rom, loc, i));
      assert i < Branches[j].1;
    }
  }

  lemma PartsOfNearBranch(rom: seq<byte>, b: byte, loc: nat)
    requires NearBranch(rom, b, loc)
    ensures BranchLength(b) > 0 || InBranch(rom, loc, 0) || InBranch(rom, loc, 1) || InBranch(rom, loc, 2)
  {
    var j, i :| 0 <= j < |Branches| && 0 <= i < Branches[j].1 && (Back(rom, loc, i) == Branches[j].0 || b == Branches[j].0);
    var op, n := Branches[j].0, Branches[j].1;
    BranchesHaveLength(j);
    if b == op {
      assert BranchLength(b) == n;
    } else {
      assert Back(rom, loc, i) == op as int && i < BranchLength(op);
      assert InBranch(rom, loc, i);
    }
  }

  /** The branch test, read as the source's authors describe it: the new byte
    * is no branch opcode, and loc is inside no jump or call instruction. */
  lemma NearBranchIff(rom: seq<byte>, b: byte, loc: nat)
    ensures NearBranch(rom, b, loc) <==>
      BranchLength(b) > 0 || InBranch(rom, loc, 0) || InBranch(rom, loc, 1) || InBranch(rom, loc, 2)
  {
    if NearBranch(rom, b, loc) {
      PartsOfNearBranch(rom, b, loc);
    }
    if BranchLength(b) > 0 || InBranch(rom, loc, 0) || InBranch(rom, loc, 1) || InBranch(rom, loc, 2) {
      NearBranchOfParts(rom, b, loc);
    }
  }

  /** Everything valid_byte decides, stated by instruction. */
  lemma ValidByteIff(rom: seq<byte>, b: byte, loc: nat)
    requires loc < |rom|
    ensures ValidByte(rom, b, loc) <==>
      loc >= Start && rom[loc] !in Ret && b !in Ret && BranchLength(b) == 0 &&
      !InBranch(rom, loc, 0) && !InBranch(rom, loc, 1) && !InBranch(rom, loc, 2)
  {
    NearBranchIff(rom, b, loc);
  }

  /** What valid_byte promises about any byte it accepts: past the header,
    * and neither a return nor a branch opcode. */
  predicate Allowed(b: byte, loc: nat)
  {
    loc >= Start && b !in Ret && BranchLength(b) == 0
  }

  lemma ValidatorPromises()
    ensures Engine.Promises(Validator(), (b: byte, loc: nat) => Allowed(b, loc))
  {
    forall rom, b, loc | Validator()(rom, b, loc)
      ensures Allowed(b, loc)
    {
      NearBranchIff(rom, b, loc);
    }
  }

  /** Corruption::corrupt with the GBC valid_byte leaves the boot area and
    * header alone and never writes a return or branch opcode. */
  lemma RunKeepsHeader(rom: seq<byte>, info: Info, draw: nat -> byte, drawn: nat, k: nat)
    requires Engine.Terminates(Engine.BasePass(info, |rom|, Engine.BaseLoop)) && k < |rom|
    ensures var out := Engine.Run(rom, info.start, Engine.BasePass(info, |rom|, Engine.BaseLoop), Validator(), draw, drawn, 0).rom;
      out[k] != rom[k] ==> Allowed(out[k], k)
  {
    ValidatorPromises();
    Engine.RunAccepted(rom, info.start, Engine.BasePass(info, |rom|, Engine.BaseLoop), Validator(), draw, drawn, 0,
      (b: byte, loc: nat) => Allowed(b, loc), k);
  }

  /** valid_byte refuses every byte of a jump or call instruction. */
  lemma InsideBranch(rom: seq<byte>, b: byte, loc: nat, q: nat)
    requires q <= loc < |rom| && loc - q < BranchLength(rom[q])
    ensures !ValidByte(rom, b, loc)
  {
    assert Back(rom, loc, loc - q) == rom[q] as int;
    assert InBranch(rom, loc, loc - q);
    NearBranchOfParts(rom, b, loc);
  }

  /** A jump or call in the ROM when the pass begins, opcode and operands,
    * is still there when it ends. */
  lemma RunKeepsBranch(rom: seq<byte>, i: nat, p: Engine.Pass, draw: nat -> byte, drawn: nat, hits: nat, q: nat)
    requires Engine.Terminates(p) && Engine.AsksAboutWrites(p)
    requires q < |rom| && 0 < BranchLength(rom[q]) && q + BranchLength(rom[q]) <= |rom|
    ensures var n := BranchLength(rom[q]);
      Engine.Run(rom, i, p, Validator(), draw, drawn, hits).rom[q..q + n] == rom[q..q + n]
  {
    var op := rom[q];
    BranchShielded(op, q);
    Engine.RunShielded(rom, i, p, Validator(), draw, drawn, hits, q, q + BranchLength(op), Opens(op));
  }

  /** A window that starts with the opcode op. */
  function Opens(op: byte): seq<byte> -> bool
  {
    (w: seq<byte>) => |w| > 0 && w[0] == op
  }

  /** valid_byte shields every byte of a jump or call whose opcode is op. */
  lemma BranchShielded(op: byte, q: nat)
    requires 0 < BranchLength(op)
    ensures Engine.Shields(Validator(), q, q + BranchLength(op), Opens(op))
  {
    var n := BranchLength(op);
    forall r: seq<byte>, b: byte, loc: nat | q + n <= |r| && q <= loc < q + n && Opens(op)(r[q..q + n])
      ensures !Validator()(r, b, loc)
    {
      assert r[q] == op;
      InsideBranch(r, b, loc, q);
    }
  }

  /** A return in the ROM when the pass begins is still there when it ends. */
  lemma RunKeepsReturn(rom: seq<byte>, i: nat, p: Engine.Pass, draw: nat -> byte, drawn: nat, hits: nat, q: nat)
    requires Engine.Terminates(p) && Engine.AsksAboutWrites(p)
    requires q < |rom| && rom[q] in Ret
    ensures Engine.Run(rom, i, p, Validator(), draw, drawn, hits).rom[q] == rom[q]
  {
    var frozen := (w: seq<byte>) => |w| == 1 && w[0] in Ret;
    forall r: seq<byte>, b: byte, loc: nat | q + 1 <= |r| && q <= loc < q + 1 && frozen(r[q..q + 1])
      ensures !Validator()(r, b, loc)
    {
    }
    Engine.RunShielded(rom, i, p, Validator(), draw, drawn, hits, q, q + 1, frozen);
    assert Engine.Run(rom, i, p, Validator(), draw, drawn, hits).rom[q..q + 1][0] == rom[q..q + 1][0];
  }

  /** PUSH BC just past the header, with no-operations before it. */
  function PushRom(): (rom: seq<byte>)
    ensures |rom| == Start + 1 && rom[Start] == 0xC5 && rom[Start - 1] == 0 && rom[Start - 2] == 0
  {
    seq(Start, k => 0) + [0xC5]
  }

  /** The stack list is never consulted: valid_byte lets a PUSH be
    * overwritten. */
  lemma PushOverwritten()
    ensures PushRom()[Start] in Stack && ValidByte(PushRom(), 0x00, Start)
  {
    ValidByteIff(PushRom(), 0x00, Start);
  }
}
