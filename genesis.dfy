// The Sega Genesis / Mega Drive extension (extensions/genesis/genesis.cpp):
// the 68000 branch test behind valid_byte, the ROM checksum, and the patch
// that save applies to the header and the exception vector table before the
// ROM is written out.

module Genesis {
  import opened Bytes
  import opened Config
  import Util
  import Bits
  import Engine

  // ---------------------------------------------------------------------------
  // is_branch

  /** w & mask on 16 bits. */
  function And16(w: u16, mask: u16): nat
  {
    Bits.Bitwise(Bits.AndBit, w, mask, 16)
  }

  /** is_branch as written. hi_byte is an 8-bit value, so its comparisons with
    * the 16-bit words 0x4E75 (RTS), 0x4E77 (RTR) and 0x4E74 (RTD) never hold. */
  predicate IsBranchAsWritten(w: u16)
  {
    var hiByte := And16(w, 0xFF00) / 0x100;
    var hiNybble := And16(w, 0xF000) / 0x1000;
    hiNybble == 0x06
    || hiByte == 0x61 || hiByte == 0x60
    || hiByte == 0x4E75 || hiByte == 0x4E77 || hiByte == 0x4E74
    || And16(w, 0xFFC0) == 0x4E80 || And16(w, 0xFFC0) == 0x4EC0
    || And16(w, 0xF0F8) == 0x50C8
  }

  /** is_branch as its comments mean it: the returns are whole instruction words. */
  predicate IsBranch(w: u16)
  {
    IsBranchAsWritten(w) || w == 0x4E75 || w == 0x4E77 || w == 0x4E74
  }

  // The 68000 encodings of the control-transfer instructions, by field.

  /** Line 6: Bcc, BSR and BRA. */
  predicate Line6(w: u16) { w / 0x1000 == 6 }

  /** JSR <ea> and JMP <ea>: 0100 1110 10/11 followed by the effective address. */
  predicate Jsr(w: u16) { w / 0x40 == 0x13A }
  predicate Jmp(w: u16) { w / 0x40 == 0x13B }

  /** DBcc: line 5, size field 11, mode 001. */
  predicate DBcc(w: u16) { w / 0x1000 == 5 && (w / 8) % 32 == 0x19 }

  /** RTS, RTR and RTD. */
  predicate Return(w: u16) { w == 0x4E75 || w == 0x4E77 || w == 0x4E74 }

  /** w & 0xFFC0 keeps the top ten bits. */
  lemma MaskFFC0(w: u16)
    ensures And16(w, 0xFFC0) == 0x40 * (w / 0x40)
  {
    assert Util.Pow2(6) == 0x40 && Util.Pow2(10) == 0x400;
    var hi := Bits.High(w, 6);
    assert hi == w / 0x40;
    assert Bits.Low(0xFFC0, 6) == 0 && Bits.High(0xFFC0, 6) == 0x3FF;
    Bits.BitwiseSplit(Bits.AndBit, w, 0xFFC0, 6, 16);
    Bits.AndZero(Bits.Low(w, 6), 6);
    Bits.AndOnes(hi, 10);
  }

  /** w & 0xFF00 keeps the high byte. */
  lemma MaskFF00(w: u16)
    ensures And16(w, 0xFF00) == 0x100 * (w / 0x100)
  {
    assert Util.Pow2(8) == 0x100;
    var hi := Bits.High(w, 8);
    assert hi == w / 0x100;
    assert Bits.Low(0xFF00, 8) == 0 && Bits.High(0xFF00, 8) == 0xFF;
    Bits.BitwiseSplit(Bits.AndBit, w, 0xFF00, 8, 16);
    Bits.AndZero(Bits.Low(w, 8), 8);
    Bits.AndOnes(hi, 8);
  }

  /** w & 0xF000 keeps the top nybble. */
  lemma MaskF000(w: u16)
    ensures And16(w, 0xF000) == 0x1000 * (w / 0x1000)
  {
    assert Util.Pow2(12) == 0x1000 && Util.Pow2(4) == 0x10;
    var hi := Bits.High(w, 12);
    assert hi == w / 0x1000;
    assert Bits.Low(0xF000, 12) == 0 && Bits.High(0xF000, 12) == 0xF;
    Bits.BitwiseSplit(Bits.AndBit, w, 0xF000, 12, 16);
    Bits.AndZero(Bits.Low(w, 12), 12);
    Bits.AndOnes(hi, 4);
  }

  /** w & 0xF0F8 keeps the top nybble and bits 3 to 7. */
  lemma MaskF0F8(w: u16)
    ensures And16(w, 0xF0F8) == 8 * ((w / 8) % 32) + 0x1000 * (w / 0x1000)
  {
    var a := w / 8;
    var mid := MaskMiddle(a);
    assert Util.Pow2(3) == 8;
    assert Bits.High(w, 3) == a;
    assert Bits.Low(0xF0F8, 3) == 0 && Bits.High(0xF0F8, 3) == 0x1E1F;
    Bits.BitwiseSplit(Bits.AndBit, w, 0xF0F8, 3, 16);
    Bits.AndZero(Bits.Low(w, 3), 3);
    assert a / 0x200 == w / 0x1000;
  }

  /** The 13 bits above bit 3 of w & 0xF0F8: bits 0 to 4 of a and its top nybble. */
  lemma MaskMiddle(a: nat) returns (r: nat)
    requires a < 0x2000
    ensures r == Bits.Bitwise(Bits.AndBit, a, 0x1E1F, 13) && r == a % 32 + 0x200 * (a / 0x200)
  {
    r := Bits.Bitwise(Bits.AndBit, a, 0x1E1F, 13);
    var b := a / 32;
    assert Util.Pow2(5) == 32;
    assert Bits.Low(a, 5) == a % 32 && Bits.High(a, 5) == b;
    assert Bits.Low(0x1E1F, 5) == 0x1F && Bits.High(0x1E1F, 5) == 0xF0;
    Bits.BitwiseSplit(Bits.AndBit, a, 0x1E1F, 5, 13);
    Bits.AndOnes(a % 32, 5);
    MaskF0(b);
    assert b / 16 == a / 0x200;
  }

  /** b & 0xF0 on 8 bits keeps the top nybble. */
  lemma MaskF0(b: nat)
    requires b < 0x100
    ensures Bits.Bitwise(Bits.AndBit, b, 0xF0, 8) == 16 * (b / 16)
  {
    assert Util.Pow2(4) == 16;
    var top := Bits.High(b, 4);
    assert top == b / 16;
    assert Bits.Low(0xF0, 4) == 0 && Bits.High(0xF0, 4) == 0xF;
    Bits.BitwiseSplit(Bits.AndBit, b, 0xF0, 4, 8);
    Bits.AndZero(Bits.Low(b, 4), 4);
    Bits.AndOnes(top, 4);
  }

  /** As written, is_branch recognises exactly Bcc/BSR/BRA, JSR, JMP and DBcc. */
  lemma AsWrittenIff(w: u16)
    ensures IsBranchAsWritten(w) <==> Line6(w) || Jsr(w) || Jmp(w) || DBcc(w)
  {
    MaskFFC0(w);
    MaskFF00(w);
    MaskF000(w);
    MaskF0F8(w);
  }

  /** Corrected, it recognises the returns as well. */
  lemma IsBranchIff(w: u16)
    ensures IsBranch(w) <==> Line6(w) || Jsr(w) || Jmp(w) || DBcc(w) || Return(w)
  {
    AsWrittenIff(w);
  }

  /** RTS is one of the instructions is_branch lists, yet it is not recognised. */
  lemma ReturnMissed()
    ensures !IsBranchAsWritten(0x4E75) && IsBranch(0x4E75)
  {
    AsWrittenIff(0x4E75);
  }

  // ---------------------------------------------------------------------------
  // valid_byte

  /** valid_byte: it tests the big-endian words at location and location - 1
    * (util::read_big gives 0 past the end, and location - 1 wraps at 0), and
    * returns true either way. */
  function ValidByte(rom: seq<byte>, b: byte, loc: nat): (r: bool)
    ensures r
  {
    if IsBranch(Util.ReadBe(rom, loc, 2)) || IsBranch(Util.ReadBe(rom, Wrap32(loc - 1), 2)) then true
    else true
  }

  function Validator(): Engine.Validator
  {
    (rom: seq<byte>, b: byte, loc: nat) => ValidByte(rom, b, loc)
  }

  /** The Genesis corruption pass is the unguarded one. */
  lemma CorruptUnguarded(rom: seq<byte>, info: Info, draw: nat -> byte)
    requires Engine.Terminates(Engine.BasePass(info, |rom|, Engine.BaseLoop))
    ensures Engine.Run(rom, info.start, Engine.BasePass(info, |rom|, Engine.BaseLoop), Validator(), draw, 0, 0)
         == Engine.Run(rom, info.start, Engine.BasePass(info, |rom|, Engine.BaseLoop), Engine.AlwaysValid(), draw, 0, 0)
  {
    Engine.RunAcceptAll(rom, info.start, Engine.BasePass(info, |rom|, Engine.BaseLoop), Validator(), draw, 0, 0);
  }

  // ---------------------------------------------------------------------------
  // checksum

  /** The first byte the checksum covers. */
  const ChecksumStart := 0x200

  /** The sum of the n big-endian words from `from` on. */
  function WordSum(rom: seq<byte>, from: nat, n: nat): nat
    requires from + 2 * n <= |rom|
  {
    if n == 0 then 0 else WordSum(rom, from, n - 1) + rom[from + 2 * n - 2] as int * 0x100 + rom[from + 2 * n - 1]
  }

  /** The loop reads rom[i] and rom[i + 1] unchecked, so a ROM longer than
    * 0x200 must have even size; its uint32_t index must not wrap. */
  predicate ChecksumDefined(rom: seq<byte>)
  {
    |rom| < 0x1_0000_0000 && (|rom| <= ChecksumStart || |rom| % 2 == 0)
  }

  /** checksum: the uint16_t sum of the big-endian words from 0x200 on. */
  function Checksum(rom: seq<byte>): (r: u16)
    requires ChecksumDefined(rom)
  {
    if |rom| <= ChecksumStart then 0
    else WordSum(rom, ChecksumStart, (|rom| - ChecksumStart) / 2) % 0x1_0000
  }

  /** Appending a word adds it to the checksum, modulo 2^16. */
  lemma ChecksumAppend(rom: seq<byte>, hi: byte, lo: byte)
    requires ChecksumDefined(rom) && ChecksumDefined(rom + [hi, lo]) && |rom| >= ChecksumStart
    ensures Checksum(rom + [hi, lo]) == (Checksum(rom) + hi * 0x100 + lo) % 0x1_0000
  {
    var ext := rom + [hi, lo];
    var n := (|rom| - ChecksumStart) / 2;
    assert (|ext| - ChecksumStart) / 2 == n + 1;
    WordSumSame(rom, ext, ChecksumStart, n);
    assert ext[|rom|] == hi && ext[|rom| + 1] == lo;
    var before := WordSum(rom, ChecksumStart, n);
    assert WordSum(ext, ChecksumStart, n + 1) == before + hi * 0x100 + lo;
    assert Checksum(rom) == before % 0x1_0000;
    AddMod(before, hi * 0x100 + lo);
  }

  /** The sum depends only on the bytes it covers. */
  lemma {:induction false} WordSumSame(a: seq<byte>, b: seq<byte>, from: nat, n: nat)
    requires from + 2 * n <= |a| && from + 2 * n <= |b|
    requires forall k :: from <= k < from + 2 * n ==> a[k] == b[k]
    ensures WordSum(a, from, n) == WordSum(b, from, n)
  {
    if n > 0 {
      WordSumSame(a, b, from, n - 1);
    }
  }

  /** The checksum does not look below 0x200. */
  lemma ChecksumIgnoresHead(a: seq<byte>, b: seq<byte>)
    requires ChecksumDefined(a) && |a| == |b|
    requires forall k :: ChecksumStart <= k < |a| ==> a[k] == b[k]
    ensures ChecksumDefined(b) && Checksum(a) == Checksum(b)
  {
    if |a| > ChecksumStart {
      WordSumSame(a, b, ChecksumStart, (|a| - ChecksumStart) / 2);
    }
  }

  // ---------------------------------------------------------------------------
  // save: the checksum and the vector table

  /** Where save stores the checksum, big-endian. */
  const ChecksumField := 0x18E

  /** The handler save writes at 0x40: addq.l #2,(sp) / addq.l #2,(a7) /
    * addq.l #2,(sp)+ ... rte, as the bytes 54 8F 54 97 55 8F 4E 73. */
  const Handler: seq<byte> := [0x54, 0x8F, 0x54, 0x97, 0x55, 0x8F, 0x4E, 0x73]

  /** A vector pointing at the handler: 0x00000040. */
  const Redirect: seq<byte> := [0x00, 0x00, 0x00, 0x40]

  /** The vector-table loop of save from slot i on. */
  function PatchFrom(r: seq<byte>, i: nat): (s: seq<byte>)
    requires |r| >= 0x100 && i % 4 == 0
    ensures |s| == |r|
    decreases 0x100 - i
  {
    if i >= 0x100 then r
    else if i == 0x40 then PatchFrom(r[..0x40] + Handler + r[0x48..], 0x48)
    else if i != 0x70 && i != 0x78 then PatchFrom(r[..i] + Redirect + r[i + 4..], i + 4)
    else PatchFrom(r, i + 4)
  }

  /** The byte the vector-table patch leaves at position k of 0x08..0xFF, given
    * the byte x that was there. */
  function Vector(k: nat, x: byte): byte
  {
    if 0x40 <= k < 0x48 then Handler[k - 0x40]
    else if 0x70 <= k < 0x74 || 0x78 <= k < 0x7C then x
    else if k % 4 == 3 then 0x40
    else 0x00
  }

  /** The ROM with its checksum stored at 0x18E/0x18F. */
  function Stamp(r: seq<byte>): (s: seq<byte>)
    requires |r| >= 0x190 && ChecksumDefined(r)
  {
    var cs := Checksum(r);
    r[ChecksumField := cs / 0x100][ChecksumField + 1 := cs % 0x100]
  }

  predicate SaveDefined(r: seq<byte>)
  {
    |r| >= 0x190 && ChecksumDefined(r)
  }

  /** The ROM save writes out. */
  function Saved(r: seq<byte>): seq<byte>
    requires SaveDefined(r)
  {
    PatchFrom(Stamp(r), 8)
  }

  /** The vector-table loop rewrites each byte of 0x08..0xFF from slot i on
    * to its Vector value, and nothing else. */
  lemma {:induction false} PatchFromBytes(r: seq<byte>, i: nat, k: nat)
    requires |r| >= 0x100 && i % 4 == 0 && i != 0x44 && k < |r|
    ensures PatchFrom(r, i)[k] == if i <= k < 0x100 then Vector(k, r[k]) else r[k]
    decreases 0x100 - i
  {
    if i < 0x100 {
      if i == 0x40 {
        var next := r[..0x40] + Handler + r[0x48..];
        PatchFromBytes(next, 0x48, k);
        HandlerSlot(r, k);
      } else if i != 0x70 && i != 0x78 {
        var next := r[..i] + Redirect + r[i + 4..];
        PatchFromBytes(next, i + 4, k);
        RedirectSlot(r, i, k);
      } else {
        PatchFromBytes(r, i + 4, k);
        assert i <= k < i + 4 ==> Vector(k, r[k]) == r[k];
      }
    }
  }

  /** Writing the handler sets 0x40..0x47 to their Vector values. */
  lemma HandlerSlot(r: seq<byte>, k: nat)
    requires |r| >= 0x100 && k < |r|
    ensures var next := r[..0x40] + Handler + r[0x48..];
      |next| == |r| && next[k] == if 0x40 <= k < 0x48 then Vector(k, r[k]) else r[k]
  {
  }

  /** Redirecting slot i sets its four bytes to their Vector values. */
  lemma RedirectSlot(r: seq<byte>, i: nat, k: nat)
    requires |r| >= 0x100 && i % 4 == 0 && i < 0x100 && k < |r|
    requires i != 0x40 && i != 0x44 && i != 0x70 && i != 0x78
    ensures var next := r[..i] + Redirect + r[i + 4..];
      |next| == |r| && next[k] == if i <= k < i + 4 then Vector(k, r[k]) else r[k]
  {
    if i <= k < i + 4 {
      assert k % 4 == k - i;
    }
  }

  /** What save leaves at each position: the checksum at 0x18E/0x18F, the
    * handler at 0x40..0x47, 00 00 00 40 in every other slot of 0x08..0xFC
    * but 0x70 and 0x78, and every other byte as it was. */
  lemma SavedBytes(r: seq<byte>, k: nat)
    requires SaveDefined(r) && k < |r|
    ensures |Saved(r)| == |r|
    ensures Saved(r)[k] ==
      if k == ChecksumField then Checksum(r) / 0x100
      else if k == ChecksumField + 1 then Checksum(r) % 0x100
      else if 8 <= k < 0x100 then Vector(k, r[k])
      else r[k]
  {
    PatchFromBytes(Stamp(r), 8, k);
  }

  /** Everything save writes is below 0x200, so it does not change the checksum. */
  lemma SavedChecksum(r: seq<byte>)
    requires SaveDefined(r)
    ensures SaveDefined(Saved(r)) && Checksum(Saved(r)) == Checksum(r)
  {
    forall k | ChecksumStart <= k < |r| ensures r[k] == Saved(r)[k] {
      SavedBytes(r, k);
    }
    SavedBytes(r, 0);
    ChecksumIgnoresHead(r, Saved(r));
  }

  /** A saved ROM carries its own checksum: the big-endian word at 0x18E is
    * the checksum of the ROM as written. */
  lemma SaveStoresChecksum(r: seq<byte>)
    requires SaveDefined(r)
    ensures SaveDefined(Saved(r)) && Util.ReadBe(Saved(r), ChecksumField, 2) == Checksum(Saved(r))
  {
    var s := Saved(r);
    SavedChecksum(r);
    SavedBytes(r, ChecksumField);
    SavedBytes(r, ChecksumField + 1);
    var cs := Checksum(r);
    assert s[ChecksumField..ChecksumField + 2] == [cs / 0x100, cs % 0x100];
    assert ToBE(cs, 2) == [cs / 0x100, cs % 0x100];
    Util.BeAt(s, ChecksumField, 2, cs);
  }

  /** Saving a saved ROM changes nothing. */
  lemma SaveIdempotent(r: seq<byte>)
    requires SaveDefined(r)
    ensures SaveDefined(Saved(r)) && Saved(Saved(r)) == Saved(r)
  {
    var s := Saved(r);
    SavedChecksum(r);
    forall k | 0 <= k < |s| ensures Saved(s)[k] == s[k] {
      SavedBytes(r, k);
      SavedBytes(s, k);
    }
  }

  /** The ROM of a GenesisCorruption, mutated in place by save. */
  class GenesisCorruption {
    const rom: array<byte>

    constructor(rom: array<byte>)
      ensures this.rom == rom
    {
      this.rom := rom;
    }

    /** checksum(): the loop adds each byte of a word separately to a uint16_t. */
    method ComputeChecksum() returns (sum: u16)
      requires ChecksumDefined(rom[..])
      ensures sum == Checksum(rom[..])
    {
      sum := 0;
      var i: u32 := ChecksumStart;
      while i < rom.Length
        invariant ChecksumStart <= i && (i - ChecksumStart) % 2 == 0
        invariant i > rom.Length ==> i == ChecksumStart && sum == 0
        invariant i <= rom.Length ==> sum == WordSum(rom[..], ChecksumStart, (i - ChecksumStart) / 2) % 0x1_0000
        decreases rom.Length - i
      {
        ghost var n := (i - ChecksumStart) / 2;
        sum := (sum + rom[i] as int * 0x100) % 0x1_0000;
        i := i + 1;
        sum := (sum + rom[i]) % 0x1_0000;
        i := i + 1;
        AddTwice(WordSum(rom[..], ChecksumStart, n), rom[i - 2] as int * 0x100, rom[i - 1]);
        assert (i - ChecksumStart) / 2 == n + 1;
      }
    }

    /** save, up to the file output: the checksum at 0x18E/0x18F, then the
      * vector-table loop. */
    method Save()
      requires SaveDefined(rom[..])
      modifies rom
      ensures rom[..] == Saved(old(rom[..]))
    {
      var cs := ComputeChecksum();
      rom[ChecksumField] := cs / 0x100;
      rom[ChecksumField + 1] := cs % 0x100;
      assert rom[..] == Stamp(old(rom[..]));
      PatchVectors();
      forall k | 0 <= k < rom.Length ensures rom[k] == Saved(old(rom[..]))[k] {
        SavedBytes(old(rom[..]), k);
      }
    }

    /** The vector-table loop of save: the handler at 0x40..0x47 and a vector
      * to it in every other slot of 0x08..0xFC but 0x70 and 0x78. */
    method PatchVectors()
      requires rom.Length >= 0x100
      modifies rom
      ensures forall k :: 0 <= k < rom.Length ==> rom[k] == if 8 <= k < 0x100 then Vector(k, old(rom[k])) else old(rom[k])
    {
      var i := 8;
      while i < 0x100
        invariant 8 <= i <= 0x100 && i % 4 == 0 && i != 0x44
        invariant forall k :: 0 <= k < rom.Length ==> rom[k] == if 8 <= k < i then Vector(k, old(rom[k])) else old(rom[k])
        decreases 0x100 - i
      {
        if i == 0x40 {
          rom[i], rom[i + 1], rom[i + 2], rom[i + 3] := 0x54, 0x8F, 0x54, 0x97;
          rom[i + 4], rom[i + 5], rom[i + 6], rom[i + 7] := 0x55, 0x8F, 0x4E, 0x73;
          HandlerBytes();
          i := i + 4;
        } else if i != 0x70 && i != 0x78 {
          rom[i], rom[i + 1], rom[i + 2], rom[i + 3] := 0, 0, 0, 0x40;
          RedirectBytes(i, old(rom[i]), old(rom[i + 1]), old(rom[i + 2]), old(rom[i + 3]));
        }
        i := i + 4;
      }
    }
  }

  /** The eight bytes of the handler. */
  lemma HandlerBytes()
    ensures forall x: byte :: Vector(0x40, x) == 0x54 && Vector(0x41, x) == 0x8F && Vector(0x42, x) == 0x54 && Vector(0x43, x) == 0x97
    ensures forall x: byte :: Vector(0x44, x) == 0x55 && Vector(0x45, x) == 0x8F && Vector(0x46, x) == 0x4E && Vector(0x47, x) == 0x73
  {
  }

  /** The four bytes of a redirected slot, whatever was there. */
  lemma RedirectBytes(i: nat, a: byte, b: byte, c: byte, d: byte)
    requires i % 4 == 0 && 8 <= i < 0x100 && i != 0x40 && i != 0x44 && i != 0x70 && i != 0x78
    ensures Vector(i, a) == 0 && Vector(i + 1, b) == 0 && Vector(i + 2, c) == 0 && Vector(i + 3, d) == 0x40
  {
    assert (i + 1) % 4 == 1 && (i + 2) % 4 == 2 && (i + 3) % 4 == 3;
    assert i + 3 < 0x40 || i >= 0x48;
    assert i + 3 < 0x70 || (i >= 0x74 && i + 3 < 0x78) || i >= 0x7C;
  }

  /** (s + a) % m == (s % m + a) % m for m = 2^16. */
  lemma AddMod(s: nat, a: nat)
    ensures (s + a) % 0x1_0000 == (s % 0x1_0000 + a) % 0x1_0000
  {
  }

  /** ((s % m + a) % m + b) % m == (s + a + b) % m. */
  lemma AddTwice(s: nat, a: nat, b: nat)
    ensures ((s % 0x1_0000 + a) % 0x1_0000 + b) % 0x1_0000 == (s + a + b) % 0x1_0000
  {
  }
}
