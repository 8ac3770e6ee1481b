// The ARM instruction classifier that GBACorruption::valid_byte
// (extensions/gba/gba.cpp) and NDSCorruption::valid_byte (extensions/nds/nds.cpp)
// both use, word for word: the byte argument is ignored, and the 32-bit
// little-endian word holding the location is refused when it encodes a
// branch, a load or a store.

module Arm {
  import opened Bytes
  import Util
  import Bits
  import Engine

  /** (instruction & 0x0FF00000) >> 20: bits 27..20. */
  function Opcode1(w: nat): (r: nat)
    ensures r < 0x100
  {
    (w / 0x10_0000) % 0x100
  }

  /** (instruction & 0x000000F0) >> 4: bits 7..4. */
  function Opcode2(w: nat): (r: nat)
    ensures r < 0x10
  {
    (w / 0x10) % 0x10
  }

  /** x & m on 8-bit operands. */
  function Masked(x: nat, m: nat): nat
  {
    Bits.Bitwise(Bits.AndBit, x, m, 8)
  }

  /** The tests of valid_byte in their order, with their early returns. */
  predicate Accepts(w: nat)
  {
    var op1, op2 := Opcode1(w), Opcode2(w);
    if 0x80 <= op1 < 0xE0 then false
    else if 0x60 <= op1 < 0x80 && op2 % 2 == 0 then false
    else if 0x40 <= op1 < 0x60 then false
    else if op1 < 0x20 then
      if Masked(op2, 0x0B) == 0x0B then false
      else !(op1 % 2 == 1 && (Masked(op2, 0x0D) == 0x0D || Masked(op2, 0x0F) == 0x0F))
    else true
  }

  /** The ARM instruction classes the tests single out, by opcode field:
    * single data transfers (0x40..0x7F, where an odd opcode 2 in 0x60..0x7F
    * is the undefined-instruction space and stays allowed), block transfers,
    * branches and coprocessor transfers (0x80..0xDF), and the halfword and
    * signed transfers of the data-processing space (opcode 2 of 0xB or 0xF,
    * and 0xD when the load bit, bit 20, is set). */
  predicate Transfer(op1: nat, op2: nat)
  {
    (0x40 <= op1 < 0xE0 && !(0x60 <= op1 < 0x80 && op2 % 2 == 1)) ||
    (op1 < 0x20 && (op2 == 0x0B || op2 == 0x0F || (op1 % 2 == 1 && op2 == 0x0D)))
  }

  /** The lowest bit of x & m. */
  function LowBit(x: nat, m: nat): nat
  {
    if x % 2 == 1 && m % 2 == 1 then 1 else 0
  }

  /** x & m on two 4-bit values, bit by bit. */
  lemma {:induction false} MaskedBits(x: nat, m: nat)
    requires x < 0x10 && m < 0x10
    ensures Masked(x, m) == LowBit(x, m) + 2 * LowBit(x / 2, m / 2) + 4 * LowBit(x / 4, m / 4) + 8 * LowBit(x / 8, m / 8)
  {
    var x1, m1 := x / 2, m / 2;
    var x2, m2 := x1 / 2, m1 / 2;
    var x3, m3 := x2 / 2, m2 / 2;
    var x4, m4 := x3 / 2, m3 / 2;
    assert x4 == 0 && m4 == 0;
    AndZero(4);
    var c4 := Bits.Bitwise(Bits.AndBit, x4, m4, 4);
    var c3 := Bits.Bitwise(Bits.AndBit, x3, m3, 5);
    assert c3 == LowBit(x3, m3) + 2 * c4;
    var c2 := Bits.Bitwise(Bits.AndBit, x2, m2, 6);
    assert c2 == LowBit(x2, m2) + 2 * c3;
    var c1 := Bits.Bitwise(Bits.AndBit, x1, m1, 7);
    assert c1 == LowBit(x1, m1) + 2 * c2;
    assert Masked(x, m) == LowBit(x, m) + 2 * c1;
    assert x2 == x / 4 && m2 == m / 4 && x3 == x / 8 && m3 == m / 8;
  }

  lemma {:induction false} AndZero(n: nat)
    ensures Bits.Bitwise(Bits.AndBit, 0, 0, n) == 0
  {
    if n > 0 {
      AndZero(n - 1);
    }
  }

  /** A 4-bit value is the sum of its bits. */
  lemma Nibble(x: nat)
    requires x < 0x10
    ensures x == x % 2 + 2 * ((x / 2) % 2) + 4 * ((x / 4) % 2) + 8 * (x / 8)
    ensures x / 8 < 2 && (x / 8) % 2 == x / 8
  {
  }

  /** The masks on a 4-bit field, value by value. */
  lemma MaskedNibble(x: nat)
    requires x < 0x10
    ensures Masked(x, 0x0B) == 0x0B <==> x == 0x0B || x == 0x0F
    ensures Masked(x, 0x0D) == 0x0D <==> x == 0x0D || x == 0x0F
    ensures Masked(x, 0x0F) == 0x0F <==> x == 0x0F
  {
    Nibble(x);
    MaskedBits(x, 0x0B);
    MaskedBits(x, 0x0D);
    MaskedBits(x, 0x0F);
  }

  /** valid_byte accepts a word exactly when it is not a transfer or branch. */
  lemma AcceptsIff(w: nat)
    ensures Accepts(w) <==> !Transfer(Opcode1(w), Opcode2(w))
  {
    MaskedNibble(Opcode2(w));
  }

  /** The word holding loc. GBA and NDS read it with the unchecked
    * Util::read; a word running past the end of the ROM reads 0 here. */
  predicate ValidByte(rom: seq<byte>, b: byte, loc: nat)
  {
    Accepts(Util.WordAt(rom, loc))
  }

  function Validator(): Engine.Validator
  {
    (rom: seq<byte>, b: byte, loc: nat) => ValidByte(rom, b, loc)
  }

  /** The two fields sit in three of the word's four bytes: opcode 1 is the
    * high nibble of byte 2 and the low nibble of byte 3, opcode 2 the high
    * nibble of byte 0. Byte 1 never decides the verdict. */
  lemma FieldsOfBytes(b0: byte, b1: byte, b2: byte, b3: byte)
    ensures Opcode1(LE([b0, b1, b2, b3])) == b2 / 0x10 + 0x10 * (b3 % 0x10)
    ensures Opcode2(LE([b0, b1, b2, b3])) == b0 / 0x10
  {
    var w := LE([b0, b1, b2, b3]);
    LE4([b0, b1, b2, b3]);
    var top, low := b2 / 0x10 + 0x10 * b3, b0 + 0x100 * b1 + 0x1_0000 * (b2 % 0x10);
    assert w == top * 0x10_0000 + low;
    Util.DivModOf(top, low, 0x10_0000);
    Util.DivModOf(b3 / 0x10, b2 / 0x10 + 0x10 * (b3 % 0x10), 0x100);
    var nib, rest := b0 / 0x10, b1 * 0x10 + 0x1000 * b2 + 0x10_0000 * b3;
    assert w == (rest + nib) * 0x10 + b0 % 0x10;
    Util.DivModOf(rest + nib, b0 % 0x10, 0x10);
    Util.DivModOf(b1 + 0x100 * b2 + 0x1_0000 * b3, nib, 0x10);
  }

  /** The four bytes of a word valid_byte refuses. */
  function Refused(): seq<byte> -> bool
  {
    (w: seq<byte>) => |w| == 4 && !Accepts(LE(w))
  }

  /** While the aligned word at a is refused, valid_byte refuses every write
    * into it. */
  lemma ShieldsRefused(a: nat)
    requires a % 4 == 0
    ensures Engine.Shields(Validator(), a, a + 4, Refused())
  {
    forall r: seq<byte>, b: byte, loc: nat | a + 4 <= |r| && a <= loc < a + 4 && Refused()(r[a..a + 4])
      ensures !Validator()(r, b, loc)
    {
      Util.WordAtOf(r, a, loc);
    }
  }

  /** A word refused when a pass begins is never written, so it comes out of
    * the pass unchanged, whatever the corruption: Corruption::corrupt and the
    * NDS per-file loop ask valid_byte about every byte they change. */
  lemma RunKeepsTransfers(rom: seq<byte>, i: nat, p: Engine.Pass, draw: nat -> byte, drawn: nat, hits: nat, a: nat)
    requires Engine.Terminates(p) && Engine.AsksAboutWrites(p)
    requires a % 4 == 0 && a + 4 <= |rom| && !Accepts(Util.ReadLe(rom, a, 4))
    ensures Engine.Run(rom, i, p, Validator(), draw, drawn, hits).rom[a..a + 4] == rom[a..a + 4]
  {
    ShieldsRefused(a);
    Engine.RunShielded(rom, i, p, Validator(), draw, drawn, hits, a, a + 4, Refused());
  }
}
