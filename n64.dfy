// The Nintendo 64 extension's valid_byte (extensions/n64/n64.cpp): a MIPS
// instruction classifier over the 32-bit word holding the location, and a
// 0x1000-byte header that is never written.
//
// As written, the opcode is the top byte masked with 0xFC, not shifted down
// by 2, and the coprocessor format is the masked field truncated to uint8_t,
// which is always 0. The tests for REGIMM, COP1 and COP2 then compare against
// values the opcode can never take, and COP0's never fires: only the SPECIAL
// shift and jump instructions are refused. ValidByteAsWritten keeps that;
// ValidByte shifts the fields as the source's own bit diagrams describe.

module N64 {
  import opened Bytes
  import opened Config
  import Util
  import Engine

  /** N64Header::Size: nothing below it is written. */
  const HeaderSize := 0x1000

  /** instruction >> 24. */
  function Top(w: nat): nat
  {
    w / 0x100_0000
  }

  /** instruction & 0x3F: the function field of a SPECIAL instruction. */
  function Funct(w: nat): (r: nat)
    ensures r < 0x40
  {
    w % 0x40
  }

  /** (instruction >> 24) & 0xFC: & 0xFC clears the two low bits. */
  function OpcodeAsWritten(w: nat): nat
  {
    Top(w) / 4 * 4
  }

  /** uint8_t format = instruction & 0x3E00000: bits 25..21 kept in place,
    * then truncated to their low 8 bits. */
  function FormatAsWritten(w: nat): (r: nat)
    ensures r < 0x100
  {
    ((w / 0x20_0000) % 0x20 * 0x20_0000) % 0x100
  }

  /** format & 0x18: bits 4..3 kept in place. */
  function HighBits(format: nat): nat
  {
    (format / 8) % 4 * 8
  }

  /** valid_byte's instruction tests as written, in their order. */
  predicate AcceptsAsWritten(w: nat)
  {
    var opcode := OpcodeAsWritten(w);
    if opcode == 0x00 then !(Funct(w) <= 0x0F)
    else if opcode == 0x01 then false
    else if opcode == 0x10 then
      var fmthigh := HighBits(FormatAsWritten(w));
      !(fmthigh == 1) && !(fmthigh == 2)
    else if opcode == 0x11 then !(FormatAsWritten(w) == 8)
    else if opcode == 0x12 then false
    else true
  }

  /** Bits 31..26: the primary opcode. */
  function Opcode(w: nat): nat
  {
    (w / 0x400_0000) % 0x40
  }

  /** Bits 25..21: the coprocessor format (rs) field. */
  function Format(w: nat): (r: nat)
    ensures r < 0x20
  {
    (w / 0x20_0000) % 0x20
  }

  /** The same tests on the fields the bit diagrams name: SPECIAL shifts,
    * jumps, SYSCALL, BREAK and SYNC; every REGIMM branch; COP0 branches
    * (format 01xxx) and TLB operations (format 10xxx); COP1 branches
    * (format 01000); and all of COP2. */
  predicate Accepts(w: nat)
  {
    var opcode := Opcode(w);
    if opcode == 0x00 then !(Funct(w) <= 0x0F)
    else if opcode == 0x01 then false
    else if opcode == 0x10 then
      var fmthigh := HighBits(Format(w)) / 8;
      !(fmthigh == 1) && !(fmthigh == 2)
    else if opcode == 0x11 then !(Format(w) == 8)
    else if opcode == 0x12 then false
    else true
  }

  lemma FormatIsZero(w: nat)
    ensures FormatAsWritten(w) == 0
  {
    var f := (w / 0x20_0000) % 0x20;
    assert f * 0x20_0000 == (f * 0x2000) * 0x100;
    Util.DivModOf(f * 0x2000, 0, 0x100);
  }

  /** As written, a word is refused exactly when it is a SPECIAL instruction
    * with function code 0x00..0x0F. */
  lemma AsWrittenIff(w: nat)
    ensures AcceptsAsWritten(w) <==> !(Top(w) < 4 && Funct(w) <= 0x0F)
  {
    FormatIsZero(w);
    var t := Top(w);
    assert OpcodeAsWritten(w) % 4 == 0 by {
      Util.DivModOf(t / 4, 0, 4);
    }
    assert OpcodeAsWritten(w) == 0 <==> t < 4;
  }

  /** The top byte's high six bits are the primary opcode. */
  lemma TopIsOpcode(w: nat)
    requires w < 0x1_0000_0000
    ensures Opcode(w) == Top(w) / 4
  {
    var t := Top(w);
    assert w / 0x400_0000 == t / 4 by {
      assert w == t * 0x100_0000 + w % 0x100_0000;
      assert w == (t / 4) * 0x400_0000 + ((t % 4) * 0x100_0000 + w % 0x100_0000);
      Util.DivModOf(t / 4, (t % 4) * 0x100_0000 + w % 0x100_0000, 0x400_0000);
    }
  }

  /** Every word refused as written is refused by the corrected tests. */
  lemma CorrectedRefusesMore(w: nat)
    requires w < 0x1_0000_0000
    ensures !AcceptsAsWritten(w) ==> !Accepts(w)
  {
    AsWrittenIff(w);
    TopIsOpcode(w);
  }

  /** A COP2 instruction (primary opcode 0x12): accepted as written, refused
    * as intended. */
  lemma Cop2Accepted()
    ensures AcceptsAsWritten(0x4800_0000) && !Accepts(0x4800_0000)
  {
    AsWrittenIff(0x4800_0000);
  }

  /** BLTZ, a REGIMM branch (primary opcode 0x01): likewise. */
  lemma RegimmAccepted()
    ensures AcceptsAsWritten(0x0400_0000) && !Accepts(0x0400_0000)
  {
    AsWrittenIff(0x0400_0000);
  }

  /** valid_byte as written: nothing in the header, then the word holding the
    * location (util::read<uint32_t>, 0 past the end). The byte is ignored. */
  predicate ValidByteAsWritten(rom: seq<byte>, b: byte, loc: nat)
  {
    if loc < HeaderSize then false else AcceptsAsWritten(Util.WordAt(rom, loc))
  }

  /** valid_byte with the opcode and format fields shifted down as intended. */
  predicate ValidByte(rom: seq<byte>, b: byte, loc: nat)
  {
    if loc < HeaderSize then false else Accepts(Util.WordAt(rom, loc))
  }

  /** The check the N64 extension hands to Corruption::corrupt: valid_byte as
    * written. */
  function Validator(): Engine.Validator
  {
    (rom: seq<byte>, b: byte, loc: nat) => ValidByteAsWritten(rom, b, loc)
  }

  /** The same check with the corrected fields. */
  function CorrectedValidator(): Engine.Validator
  {
    (rom: seq<byte>, b: byte, loc: nat) => ValidByte(rom, b, loc)
  }

  /** The words of a ROM: a COP2 instruction right after the header. */
  function Cop2Rom(): (rom: seq<byte>)
    ensures |rom| == HeaderSize + 4 && rom[HeaderSize..] == [0x00, 0x00, 0x00, 0x48]
  {
    seq(HeaderSize, k => 0) + [0x00, 0x00, 0x00, 0x48]
  }

  /** On a ROM, the as-written guard lets a byte of that COP2 instruction be
    * overwritten; the corrected one does not. */
  lemma Cop2Overwritten()
    ensures ValidByteAsWritten(Cop2Rom(), 0xFF, HeaderSize + 1)
    ensures !ValidByte(Cop2Rom(), 0xFF, HeaderSize + 1)
  {
    var rom := Cop2Rom();
    Util.WordAtOf(rom, HeaderSize, HeaderSize + 1);
    var w := rom[HeaderSize..HeaderSize + 4];
    assert w == [0x00, 0x00, 0x00, 0x48];
    LE4(w);
    Cop2Accepted();
  }

  /** What valid_byte promises about any byte it accepts: past the header. */
  predicate Allowed(b: byte, loc: nat)
  {
    loc >= HeaderSize
  }

  /** Both the check as written and the corrected one keep that promise. */
  lemma ValidatorPromises()
    ensures Engine.Promises(Validator(), (b: byte, loc: nat) => Allowed(b, loc))
    ensures Engine.Promises(CorrectedValidator(), (b: byte, loc: nat) => Allowed(b, loc))
  {
  }

  /** Corruption::corrupt with the N64 valid_byte as written never changes the
    * header. */
  lemma RunKeepsHeader(rom: seq<byte>, info: Info, draw: nat -> byte, drawn: nat, k: nat)
    requires Engine.Terminates(Engine.BasePass(info, |rom|, Engine.BaseLoop)) && k < |rom| && k < HeaderSize
    ensures Engine.Run(rom, info.start, Engine.BasePass(info, |rom|, Engine.BaseLoop), Validator(), draw, drawn, 0).rom[k] == rom[k]
  {
    ValidatorPromises();
    Engine.RunAccepted(rom, info.start, Engine.BasePass(info, |rom|, Engine.BaseLoop), Validator(), draw, drawn, 0,
      (b: byte, loc: nat) => Allowed(b, loc), k);
  }

  /** A word valid_byte as written refuses when the pass begins (a SPECIAL
    * instruction with function code 0x00..0x0F) comes out of it unchanged. */
  lemma RunKeepsRefused(rom: seq<byte>, i: nat, p: Engine.Pass, draw: nat -> byte, drawn: nat, hits: nat, a: nat)
    requires Engine.Terminates(p) && Engine.AsksAboutWrites(p)
    requires a % 4 == 0 && a + 4 <= |rom| && !AcceptsAsWritten(Util.ReadLe(rom, a, 4))
    ensures Engine.Run(rom, i, p, Validator(), draw, drawn, hits).rom[a..a + 4] == rom[a..a + 4]
  {
    var frozen := (w: seq<byte>) => |w| == 4 && !AcceptsAsWritten(LE(w));
    forall r: seq<byte>, b: byte, loc: nat | a + 4 <= |r| && a <= loc < a + 4 && frozen(r[a..a + 4])
      ensures !Validator()(r, b, loc)
    {
      Util.WordAtOf(r, a, loc);
    }
    Engine.RunShielded(rom, i, p, Validator(), draw, drawn, hits, a, a + 4, frozen);
  }

  /** With the corrected check, every word it refuses (COP2 and REGIMM among
    * them) comes out of the pass unchanged. */
  lemma RunKeepsRefusedCorrected(rom: seq<byte>, i: nat, p: Engine.Pass, draw: nat -> byte, drawn: nat, hits: nat, a: nat)
    requires Engine.Terminates(p) && Engine.AsksAboutWrites(p)
    requires a % 4 == 0 && a + 4 <= |rom| && !Accepts(Util.ReadLe(rom, a, 4))
    ensures Engine.Run(rom, i, p, CorrectedValidator(), draw, drawn, hits).rom[a..a + 4] == rom[a..a + 4]
  {
    var frozen := (w: seq<byte>) => |w| == 4 && !Accepts(LE(w));
    forall r: seq<byte>, b: byte, loc: nat | a + 4 <= |r| && a <= loc < a + 4 && frozen(r[a..a + 4])
      ensures !CorrectedValidator()(r, b, loc)
    {
      Util.WordAtOf(r, a, loc);
    }
    Engine.RunShielded(rom, i, p, CorrectedValidator(), draw, drawn, hits, a, a + 4, frozen);
  }
}
