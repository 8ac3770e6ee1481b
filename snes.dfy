// SNESCorruption and SNESHeader (extensions/snes): where the internal header
// sits, and which writes valid_byte lets through. The corruption loop itself
// is Corruption::corrupt, which module Engine models; this module supplies the
// console's valid_byte to it.

module Snes {
  import opened Bytes
  import opened Config
  import Engine
  import Util

  // ---------------------------------------------------------------------------
  // is_register

  /** is_register: the write-side registers of the PPU, APU ports, WRAM port,
    * joypad, CPU and DMA, as address ranges. */
  predicate IsRegister(addr: u16)
  {
    (0x2100 <= addr <= 0x212F)
    || (0x2130 <= addr <= 0x2133)
    || addr == 0x2137
    || (0x2140 <= addr <= 0x2144 && addr != 0x2142)
    || (0x2180 <= addr <= 0x2183)
    || addr == 0x4016
    || (0x4200 <= addr <= 0x420D)
    || (0x4300 <= addr <= 0x4400 && addr % 0x10 <= 0xA)
  }

  /** The same registers page by page: $21xx, $4016, $420x, the DMA channels
    * $43x0 .. $43xA, and $4400, which the last range also takes in. */
  predicate RegisterByPage(addr: u16)
  {
    var page, low := addr / 0x100, addr % 0x100;
    (page == 0x21 && (low <= 0x33 || low == 0x37 || (0x40 <= low <= 0x44 && low != 0x42) || 0x80 <= low <= 0x83))
    || (page == 0x40 && low == 0x16)
    || (page == 0x42 && low <= 0x0D)
    || (page == 0x43 && low % 0x10 <= 0xA)
    || addr == 0x4400
  }

  lemma IsRegisterByPage(addr: u16)
    ensures IsRegister(addr) <==> RegisterByPage(addr)
  {
    var page, low := addr / 0x100, addr % 0x100;
    assert addr == page * 0x100 + low;
    assert low % 0x10 == addr % 0x10 by {
      assert addr == (page * 0x10 + low / 0x10) * 0x10 + low % 0x10;
    }
  }

  // ---------------------------------------------------------------------------
  // The header

  const HeaderSize: nat := 64

  /** The three places initialize() looks for the header: LoROM, HiROM and
    * ExHiROM. */
  const Candidates: seq<nat> := [0x7FC0, 0xFFC0, 0x40FFC0]

  /** has_smc: a copier adds a 512-byte header in front of 0x2000-byte blocks. */
  predicate HasSmc(size: nat)
  {
    size % 0x2000 == 0x200
  }

  /** Where the candidate is once the copier header is accounted for. */
  function Shifted(size: nat, address: nat): nat
  {
    address + if HasSmc(size) then 0x200 else 0
  }

  /** create_uint16: the little-endian word at `at`, unchecked. */
  function Le16(rom: seq<byte>, at: nat): (r: u16)
    requires at + 2 <= |rom|
  {
    rom[at] as int + 0x100 * rom[at + 1] as int
  }

  /** x & ~0x10. */
  function ClearFastRom(x: nat): (r: nat)
    ensures r <= x && (r / 0x10) % 2 == 0
  {
    if (x / 0x10) % 2 == 1 then x - 0x10 else x
  }

  /** The map of score_header, in its key order: the reset handler's first
    * opcode says how likely a candidate is. */
  const OpScores: seq<(int, seq<byte>)> := [
    (-8, [0x00, 0x02, 0x42, 0xDB, 0xFF]),
    (-4, [0x40, 0x60, 0x6B, 0xCC, 0xCD, 0xEC]),
    (4, [0x20, 0x22, 0xA0, 0xA2, 0xA9, 0xAC, 0xAD, 0xAE, 0xAF, 0xC2, 0xE2]),
    (8, [0x18, 0x38, 0x4C, 0x5C, 0x78, 0x9C])]

  /** The loop over the map: the sum of the scores whose list holds op. */
  function TableScore(table: seq<(int, seq<byte>)>, op: byte): int
  {
    if table == [] then 0
    else TableScore(table[..|table| - 1], op) + if op in table[|table| - 1].1 then table[|table| - 1].0 else 0
  }

  /** The lists are disjoint, so at most one score applies. */
  function OpcodeScore(op: byte): (r: int)
    ensures r == (if op in OpScores[3].1 then 8 else if op in OpScores[2].1 then 4
      else if op in OpScores[1].1 then -4 else if op in OpScores[0].1 then -8 else 0)
  {
    TableScoreStep(1, op);
    TableScoreStep(2, op);
    TableScoreStep(3, op);
    TableScoreStep(4, op);
    assert OpScores[..4] == OpScores;
    TableScore(OpScores, op)
  }

  lemma TableScoreStep(k: nat, op: byte)
    requires 0 < k <= |OpScores|
    ensures TableScore(OpScores[..k], op) == TableScore(OpScores[..k - 1], op) + if op in OpScores[k - 1].1 then OpScores[k - 1].0 else 0
  {
    assert OpScores[..k][..k - 1] == OpScores[..k - 1];
  }

  /** The switch on the layout: LoROM and ExLoROM fall through to the HiROM
    * case and HiROM to the ExHiROM case, so each layout is rewarded at its own
    * address and at the ones of the cases after it. */
  function LayoutBonus(layout: nat, address: nat): nat
  {
    (if (layout == 0x20 || layout == 0x22) && address == 0x7FC0 then 2 else 0)
    + (if (layout == 0x20 || layout == 0x22 || layout == 0x21) && address == 0xFFC0 then 2 else 0)
    + (if (layout == 0x20 || layout == 0x22 || layout == 0x21 || layout == 0x25) && address == 0x40FFC0 then 2 else 0)
  }

  /** The layout as written: create_uint16 at the layout byte, so the cartridge
    * type byte after it becomes the high byte. */
  function LayoutAsWritten(rom: seq<byte>, address: nat): nat
    requires address + HeaderSize <= |rom|
  {
    ClearFastRom(Le16(rom, address + 0x15))
  }

  /** The layout as intended: the map-mode byte alone, FastROM bit cleared. */
  function Layout(rom: seq<byte>, address: nat): nat
    requires address + HeaderSize <= |rom|
  {
    ClearFastRom(rom[address + 0x15])
  }

  /** The layout score_header compares: the 16-bit read as written, or the
    * corrected map-mode byte. */
  function LayoutRead(rom: seq<byte>, address: nat, corrected: bool): nat
    requires address + HeaderSize <= |rom|
  {
    if corrected then Layout(rom, address) else LayoutAsWritten(rom, address)
  }

  /** Where score_header reads the reset handler's first opcode: the reset
    * vector's low 15 bits in the candidate's 32 KiB bank. */
  function ResetTarget(address: nat, reset: nat): nat
  {
    address / 0x8000 * 0x8000 + reset % 0x8000
  }

  /** The bonuses that do not depend on the reset opcode. */
  function FieldBonus(rom: seq<byte>, address: nat): (r: nat)
    requires address + HeaderSize <= |rom|
    ensures r <= 6
  {
    (if rom[address + 0x1A] == 0x33 then 2 else 0)
    + (if rom[address + 0x16] < 0x08 then 1 else 0)
    + (if rom[address + 0x18] < 0x08 then 1 else 0)
    + (if rom[address + 0x17] < 0x0E then 1 else 0)
    + (if rom[address + 0x19] < 0x10 then 1 else 0)
  }

  /** The checksum bonus: the checksum and its complement add up to 0xFFFF
    * and neither is 0. */
  function ChecksumBonus(rom: seq<byte>, address: nat): (r: nat)
    requires address + HeaderSize <= |rom|
    ensures r == 4 <==> Le16(rom, address + 0x1E) + Le16(rom, address + 0x1C) == 0xFFFF && Le16(rom, address + 0x1E) != 0 && Le16(rom, address + 0x1C) != 0
    ensures r == 0 || r == 4
  {
    var checksum, complement := Le16(rom, address + 0x1E), Le16(rom, address + 0x1C);
    if checksum + complement == 0xFFFF && checksum != 0 && complement != 0 then 4 else 0
  }

  /** score_header. The reset vector's offset in the header is a parameter. The
    * read of the reset opcode comes before any check on the vector and is
    * undefined when it falls past the end of the ROM, as it can with a copier
    * header. The program reads the layout as written (`corrected` false);
    * `corrected` true scores the intended map-mode byte instead. */
  function Score(rom: seq<byte>, address: nat, resetOffset: nat, corrected: bool): (r: Res<nat>)
    requires resetOffset + 2 <= HeaderSize
    ensures !r.Unmodelled?
    ensures r.Undefined? <==> address + HeaderSize <= |rom| && ResetTarget(address, Le16(rom, address + resetOffset)) >= |rom|
    ensures r.Ok? && address + HeaderSize <= |rom| && Le16(rom, address + resetOffset) >= 0x8000 ==>
      r.value == Clamp(OpcodeScore(rom[ResetTarget(address, Le16(rom, address + resetOffset))])
        + ChecksumBonus(rom, address) + LayoutBonus(LayoutRead(rom, address, corrected), address) + FieldBonus(rom, address))
    ensures r.Ok? && r.value > 0 ==> address + HeaderSize <= |rom| && Le16(rom, address + resetOffset) >= 0x8000
    ensures r.Ok? ==> r.value <= 20
  {
    if address + HeaderSize > |rom| then Ok(0)
    else
      var reset := Le16(rom, address + resetOffset);
      var at := ResetTarget(address, reset);
      if at >= |rom| then Undefined
      else if reset < 0x8000 then Ok(0)
      else
        LayoutBonusAtMostTwo(LayoutRead(rom, address, corrected), address);
        Ok(Clamp(OpcodeScore(rom[at]) + ChecksumBonus(rom, address) + LayoutBonus(LayoutRead(rom, address, corrected), address) + FieldBonus(rom, address)))
  }

  /** std::max(score, 0). */
  function Clamp(x: int): (r: nat)
    ensures r >= x && (x >= 0 ==> r == x) && (x <= 0 ==> r == 0)
  {
    if x < 0 then 0 else x
  }

  /** The fall-through gives at most one bonus, and none at an address
    * shifted by a copier header. */
  lemma LayoutBonusAtMostTwo(layout: nat, address: nat)
    ensures LayoutBonus(layout, address) <= 2
    ensures address !in Candidates ==> LayoutBonus(layout, address) == 0
  {
  }

  /** The score loop of score_header, over the map's entries. */
  method ScoreHeader(rom: seq<byte>, address: nat, resetOffset: nat, corrected: bool) returns (r: Res<nat>)
    requires resetOffset + 2 <= HeaderSize
    ensures r == Score(rom, address, resetOffset, corrected)
  {
    if address + HeaderSize > |rom| {
      return Ok(0);
    }
    var reset := Le16(rom, address + resetOffset);
    var at := ResetTarget(address, reset);
    if at >= |rom| {
      return Undefined;
    }
    var resetOp := rom[at];
    var layout := LayoutRead(rom, address, corrected);
    if reset < 0x8000 {
      return Ok(0);
    }
    var score := 0;
    var k := 0;
    while k < |OpScores|
      invariant 0 <= k <= |OpScores|
      invariant score == TableScore(OpScores[..k], resetOp)
    {
      assert OpScores[..k + 1][..k] == OpScores[..k];
      if resetOp in OpScores[k].1 {
        score := score + OpScores[k].0;
      }
      k := k + 1;
    }
    assert OpScores[..k] == OpScores;
    assert score == OpcodeScore(resetOp);
    score := score + ChecksumBonus(rom, address);
    score := score + LayoutBonus(layout, address);
    score := score + FieldBonus(rom, address);
    r := Ok(Clamp(score));
  }

  // The layout read: as written and as intended.

  /** As written, the layout bonus needs the cartridge type byte to be 0: the
    * switch only ever sees a 16-bit value below 0x100 when it is. */
  lemma LayoutBonusNeedsZeroType(rom: seq<byte>, address: nat, at: nat)
    requires address + HeaderSize <= |rom|
    ensures LayoutBonus(LayoutAsWritten(rom, address), at) > 0 ==> rom[address + 0x16] == 0
  {
    var w := Le16(rom, address + 0x15);
    if rom[address + 0x16] != 0 {
      assert w >= 0x100;
      assert LayoutAsWritten(rom, address) >= 0x100 - 0x10;
    }
  }

  /** A LoROM header whose type byte says ROM, RAM and battery (0x02): as
    * written it earns no layout bonus at 0x7FC0; as intended it earns 2. */
  lemma LoRomWithBattery(rom: seq<byte>)
    requires |rom| >= 0x8000 && rom[0x7FC0 + 0x15] == 0x20 && rom[0x7FC0 + 0x16] == 0x02
    ensures LayoutBonus(LayoutAsWritten(rom, 0x7FC0), 0x7FC0) == 0
    ensures LayoutBonus(Layout(rom, 0x7FC0), 0x7FC0) == 2
  {
    LayoutBonusNeedsZeroType(rom, 0x7FC0, 0x7FC0);
  }

  /** The intended layout depends on the map-mode byte alone. */
  lemma LayoutOfMapMode(rom: seq<byte>, address: nat, t: byte)
    requires address + HeaderSize <= |rom|
    ensures Layout(rom[address + 0x16 := t], address) == Layout(rom, address)
    ensures rom[address + 0x15] == 0x20 || rom[address + 0x15] == 0x30 ==> Layout(rom, address) == 0x20
  {
  }

  /** With a zero cartridge type byte both layout reads agree, and so do both
    * scores; LoRomWithBattery shows a ROM on which they do not. */
  lemma ScoreCorrectionNeedsType(rom: seq<byte>, address: nat, resetOffset: nat)
    requires resetOffset + 2 <= HeaderSize
    requires address + HeaderSize <= |rom| ==> rom[address + 0x16] == 0
    ensures Score(rom, address, resetOffset, false) == Score(rom, address, resetOffset, true)
  {
    if address + HeaderSize <= |rom| {
      assert Le16(rom, address + 0x15) == rom[address + 0x15];
    }
  }

  /** So detection as written and as intended agree on a ROM whose three
    * candidate headers all have a zero cartridge type byte. */
  lemma DetectCorrectionNeedsType(rom: seq<byte>, resetOffset: nat)
    requires resetOffset + 2 <= HeaderSize
    requires forall k :: 0 <= k < 3 && Shifted(|rom|, Candidates[k]) + HeaderSize <= |rom| ==>
      rom[Shifted(|rom|, Candidates[k]) + 0x16] == 0
    ensures Detect(rom, resetOffset, false) == Detect(rom, resetOffset, true)
  {
    ScoreCorrectionNeedsType(rom, Shifted(|rom|, Candidates[0]), resetOffset);
    ScoreCorrectionNeedsType(rom, Shifted(|rom|, Candidates[1]), resetOffset);
    ScoreCorrectionNeedsType(rom, Shifted(|rom|, Candidates[2]), resetOffset);
  }

  // initialize

  /** What initialize() keeps: the copier flag, the header's offset (0 when
    * no candidate scored) and the 64 header bytes. */
  datatype Header = Header(hasSmc: bool, offset: nat, bytes: seq<byte>)

  /** The three scores, in candidate order. */
  function Scores(rom: seq<byte>, resetOffset: nat, corrected: bool): (r: Res<seq<nat>>)
    requires resetOffset + 2 <= HeaderSize
    ensures r.Ok? ==> |r.value| == 3 && forall k :: 0 <= k < 3 ==> Score(rom, Shifted(|rom|, Candidates[k]), resetOffset, corrected) == Ok(r.value[k])
    ensures r.Undefined? <==> exists k :: 0 <= k < 3 && Score(rom, Shifted(|rom|, Candidates[k]), resetOffset, corrected).Undefined?
    ensures !r.Unmodelled?
  {
    var a := Score(rom, Shifted(|rom|, Candidates[0]), resetOffset, corrected);
    var b := Score(rom, Shifted(|rom|, Candidates[1]), resetOffset, corrected);
    var c := Score(rom, Shifted(|rom|, Candidates[2]), resetOffset, corrected);
    if a.Undefined? || b.Undefined? || c.Undefined? then Undefined
    else Ok([a.value, b.value, c.value])
  }

  /** std::max_element: the first position of the largest score. */
  function FirstMax(s: seq<nat>): (r: nat)
    requires |s| > 0
    ensures r < |s|
    ensures forall j :: 0 <= j < |s| ==> s[j] <= s[r]
    ensures forall j :: 0 <= j < r ==> s[j] < s[r]
  {
    if |s| == 1 then 0
    else
      var m := FirstMax(s[..|s| - 1]);
      if s[|s| - 1] > s[m] then |s| - 1 else m
  }

  /** initialize(): the first candidate with the highest score, moved past a
    * copier header; offset 0 and no header bytes when every score is 0. */
  function Detect(rom: seq<byte>, resetOffset: nat, corrected: bool): (r: Res<Header>)
    requires resetOffset + 2 <= HeaderSize
    ensures !r.Unmodelled?
    ensures r.Ok? ==> r.value.hasSmc == HasSmc(|rom|)
    ensures r.Ok? && r.value.offset != 0 ==>
      |r.value.bytes| == HeaderSize && r.value.offset + HeaderSize <= |rom| && r.value.bytes == rom[r.value.offset..r.value.offset + HeaderSize]
  {
    match Scores(rom, resetOffset, corrected)
    case Undefined => Undefined
    case Unmodelled => Unmodelled
    case Ok(s) =>
      var m := FirstMax(s);
      if s[m] == 0 then Ok(Header(HasSmc(|rom|), 0, []))
      else
        var off := Shifted(|rom|, Candidates[m]);
        Ok(Header(HasSmc(|rom|), off, rom[off..off + HeaderSize]))
  }

  /** The header is found exactly when some candidate scores above 0, and then
    * it is the first best one. */
  lemma DetectFindsBest(rom: seq<byte>, resetOffset: nat, corrected: bool)
    requires resetOffset + 2 <= HeaderSize && Detect(rom, resetOffset, corrected).Ok?
    ensures var h := Detect(rom, resetOffset, corrected).value;
      var s := Scores(rom, resetOffset, corrected).value;
      (h.offset == 0 <==> forall k :: 0 <= k < 3 ==> s[k] == 0) &&
      (h.offset != 0 ==>
        exists m :: 0 <= m < 3 && h.offset == Shifted(|rom|, Candidates[m]) && s[m] > 0 &&
          (forall k :: 0 <= k < 3 ==> s[k] <= s[m]) && (forall k :: 0 <= k < m ==> s[k] < s[m]))
  {
    var s := Scores(rom, resetOffset, corrected).value;
    var m := FirstMax(s);
    if s[m] != 0 {
      assert Shifted(|rom|, Candidates[m]) >= 0x7FC0;
    }
  }

  /** The loop that pushes each candidate's score. */
  method ScoreAll(rom: seq<byte>, resetOffset: nat, corrected: bool) returns (r: Res<seq<nat>>)
    requires resetOffset + 2 <= HeaderSize
    ensures r == Scores(rom, resetOffset, corrected)
  {
    var scores: seq<nat> := [];
    var k := 0;
    while k < |Candidates|
      invariant 0 <= k <= 3 && |scores| == k
      invariant forall j :: 0 <= j < k ==> Score(rom, Shifted(|rom|, Candidates[j]), resetOffset, corrected) == Ok(scores[j])
    {
      var s := ScoreHeader(rom, Shifted(|rom|, Candidates[k]), resetOffset, corrected);
      if s.Undefined? {
        return Undefined;
      }
      scores := scores + [s.value];
      k := k + 1;
    }
    assert scores == [scores[0], scores[1], scores[2]];
    return Ok(scores);
  }

  /** std::max_element's scan. */
  method MaxElement(s: seq<nat>) returns (m: nat)
    requires |s| > 0
    ensures m == FirstMax(s)
  {
    m := 0;
    var k := 1;
    while k < |s|
      invariant 1 <= k <= |s|
      invariant m == FirstMax(s[..k])
    {
      assert s[..k + 1][..k] == s[..k];
      if s[k] > s[m] {
        m := k;
      }
      k := k + 1;
    }
    assert s[..k] == s;
  }

  /** SNESHeader::initialize. */
  method Initialize(rom: seq<byte>, resetOffset: nat, corrected: bool) returns (r: Res<Header>)
    requires resetOffset + 2 <= HeaderSize
    ensures r == Detect(rom, resetOffset, corrected)
  {
    var hasSmc := HasSmc(|rom|);
    var scores := ScoreAll(rom, resetOffset, corrected);
    if scores.Undefined? {
      return Undefined;
    }
    var m := MaxElement(scores.value);
    if scores.value[m] == 0 {
      return Ok(Header(hasSmc, 0, []));
    }
    var offset := Candidates[m];
    if hasSmc {
      offset := offset + 0x200;
    }
    r := Ok(Header(hasSmc, offset, rom[offset..offset + HeaderSize]));
  }

  /** valid(): a header was found. */
  predicate Valid(h: Header)
  {
    h.offset != 0
  }

  // The header's fields

  /** rom_size(): 0x400 << the size byte. The shift is on int, so a byte above
    * 21 overflows it; the model requires the byte to be at most 21. */
  function RomSize(h: Header): (r: nat)
    requires Valid(h) && |h.bytes| == HeaderSize && h.bytes[0x17] <= 21
    ensures r == 0x400 * Util.Pow2(h.bytes[0x17]) && r < 0x1_0000_0000
  {
    Pow2Bound(h.bytes[0x17]);
    0x400 * Util.Pow2(h.bytes[0x17])
  }

  /** ram_size(): 0 for a size byte of 0, else as rom_size. */
  function RamSize(h: Header): (r: nat)
    requires Valid(h) && |h.bytes| == HeaderSize && h.bytes[0x18] <= 21
    ensures h.bytes[0x18] == 0 <==> r == 0
    ensures h.bytes[0x18] != 0 ==> r == 0x400 * Util.Pow2(h.bytes[0x18])
  {
    if h.bytes[0x18] == 0 then 0 else 0x400 * Util.Pow2(h.bytes[0x18])
  }

  lemma {:induction false} Pow2Bound(k: nat)
    requires k <= 21
    ensures Util.Pow2(k) <= 0x20_0000
    decreases 21 - k
  {
    if k < 21 {
      Pow2Bound(k + 1);
    } else {
      assert Util.Pow2(1) == 2;
      assert Util.Pow2(2) == 4;
      assert Util.Pow2(3) == 8;
      assert Util.Pow2(4) == 16;
      assert Util.Pow2(5) == 32;
      assert Util.Pow2(6) == 64;
      assert Util.Pow2(7) == 128;
      assert Util.Pow2(8) == 256;
      assert Util.Pow2(9) == 512;
      assert Util.Pow2(10) == 1024;
      assert Util.Pow2(11) == 2048;
      assert Util.Pow2(12) == 4096;
      assert Util.Pow2(13) == 8192;
      assert Util.Pow2(14) == 16384;
      assert Util.Pow2(15) == 32768;
      assert Util.Pow2(16) == 65536;
      assert Util.Pow2(17) == 131072;
      assert Util.Pow2(18) == 262144;
      assert Util.Pow2(19) == 524288;
      assert Util.Pow2(20) == 1048576;
      assert Util.Pow2(21) == 2097152;
    }
  }

  /** Each step of the size byte doubles the size. */
  lemma RomSizeDoubles(h: Header, b: byte)
    requires Valid(h) && |h.bytes| == HeaderSize && h.bytes[0x17] < 21 && b == h.bytes[0x17] + 1
    ensures RomSize(h.(bytes := h.bytes[0x17 := b])) == 2 * RomSize(h)
  {
  }

  /** The SuperFX cartridge types, whose first bank begin() skips. */
  predicate IsSuperFx(t: byte)
  {
    t == 0x13 || t == 0x14 || t == 0x15 || t == 0x1A
  }

  /** begin(): past the copier header, and past the first 64 KiB bank on a
    * SuperFX cartridge. */
  function Begin(h: Header): (r: nat)
    requires Valid(h) && |h.bytes| == HeaderSize
    ensures r % 0x200 == 0 && r <= 0x10200
    ensures (r % 0x10000 == 0x200) == h.hasSmc
    ensures r >= 0x10000 <==> IsSuperFx(h.bytes[0x16])
  {
    (if h.hasSmc then 0x200 else 0) + (if IsSuperFx(h.bytes[0x16]) then 0x10000 else 0)
  }

  // ---------------------------------------------------------------------------
  // valid_byte

  /** BRK, COP, STP, WAI, REP and SEP: never written. */
  const InvalidWrite: seq<byte> := [0x00, 0x02, 0xDB, 0xCB, 0xC2, 0xE2]

  /** The stack operations: never overwritten. */
  const InvalidStack: seq<byte> := [
    0x08, 0x0B, 0x28, 0x2B, 0x48, 0x4B, 0x5A, 0x62,
    0x68, 0x7A, 0x8B, 0xAB, 0xD4, 0xDA, 0xF4]

  /** The jumps and branches with the size of their parameter (the map's
    * entries; their order does not matter). */
  const Branches: seq<(byte, nat)> := [
    (0x80, 2), (0x82, 3), (0x30, 2), (0x50, 2), (0x70, 2), (0x90, 2), (0xB0, 2),
    (0xD0, 2), (0xF0, 2), (0x10, 2), (0x4C, 3), (0x6C, 3), (0xDC, 3), (0x7C, 3),
    (0x5C, 4), (0x20, 3), (0xFC, 3), (0x22, 4), (0x40, 1), (0x60, 1), (0x6B, 1)]

  /** STA absolute, absolute,X and absolute,Y: three bytes each. */
  const StaOps: seq<byte> := [0x8D, 0x99, 0x9D]

  /** A jump or branch opcode at loc - i, for some i below its parameter size. */
  predicate NearBranch(rom: seq<byte>, loc: nat)
  {
    exists j, i | 0 <= j < |Branches| && 0 <= i < Branches[j].1 :: Back(rom, loc, i) == Branches[j].0
  }

  /** An STA opcode at q whose 16-bit word, read `operand` bytes after it with
    * the bounds-guarded read<uint16_t>, is a register. */
  predicate StoresRegister(rom: seq<byte>, q: nat, operand: nat)
  {
    q < |rom| && rom[q] in StaOps && IsRegister(Util.ReadLe(rom, q + operand, 2))
  }

  /** Such a store `back` bytes before loc. */
  predicate StoreBack(rom: seq<byte>, loc: nat, back: nat, operand: nat)
  {
    back <= loc && StoresRegister(rom, loc - back, operand)
  }

  /** Such a store at loc, loc - 1 or loc - 2. */
  predicate NearStore(rom: seq<byte>, loc: nat, operand: nat)
  {
    StoreBack(rom, loc, 0, operand) || StoreBack(rom, loc, 1, operand) || StoreBack(rom, loc, 2, operand)
  }

  /** valid_byte with the register read `operand` bytes after the STA opcode. */
  predicate Checks(rom: seq<byte>, b: byte, loc: nat, offset: nat, operand: nat)
  {
    if offset <= loc <= offset + HeaderSize then false
    else if b in InvalidWrite then false
    else if Back(rom, loc, 1) == 0xC2 || Back(rom, loc, 1) == 0xE2 then false
    else if loc < |rom| && rom[loc] in InvalidStack then false
    else if NearBranch(rom, loc) then false
    else !NearStore(rom, loc, operand)
  }

  /** valid_byte as written: read<uint16_t> at the STA opcode itself. */
  predicate ValidByteAsWritten(rom: seq<byte>, b: byte, loc: nat, offset: nat)
  {
    Checks(rom, b, loc, offset, 0)
  }

  /** valid_byte as intended: the register is the STA's operand, one byte on. */
  predicate ValidByte(rom: seq<byte>, b: byte, loc: nat, offset: nat)
  {
    Checks(rom, b, loc, offset, 1)
  }

  /** The check the SNES extension hands to Corruption::corrupt: valid_byte as
    * written. */
  function Validator(offset: nat): Engine.Validator
  {
    (rom: seq<byte>, b: byte, loc: nat) => ValidByteAsWritten(rom, b, loc, offset)
  }

  /** The same check with the STA operand read where it is intended. */
  function CorrectedValidator(offset: nat): Engine.Validator
  {
    (rom: seq<byte>, b: byte, loc: nat) => ValidByte(rom, b, loc, offset)
  }

  /** read<uint16_t> of two bytes in the ROM: the first is the low byte. */
  lemma ReadWord(rom: seq<byte>, q: nat)
    requires q + 2 <= |rom|
    ensures Util.ReadLe(rom, q, 2) == Le16(rom, q)
  {
    var w := rom[q..q + 2];
    assert w[..1][..0] == [];
    assert w[..1] == [rom[q]] && w[..2] == w;
    assert LE(w[..1]) == rom[q];
  }

  /** As written, the STA check only fires on STA $xxxx,Y followed by 0x43:
    * the word it reads has the opcode as its low byte, and of the three
    * opcodes only 0x99 is the low byte of a register ($4399, a DMA register). */
  lemma StaCheckAsWritten(rom: seq<byte>, q: nat)
    ensures StoresRegister(rom, q, 0) ==> rom[q] == 0x99 && q + 1 < |rom| && rom[q + 1] == 0x43
  {
    if StoresRegister(rom, q, 0) {
      if q + 2 <= |rom| {
        ReadWord(rom, q);
      }
    }
  }

  /** STA $2118 (store to VRAM data) at 3, between no-operations. */
  const StaRom: seq<byte> := [0xEA, 0xEA, 0xEA, 0x8D, 0x18, 0x21, 0xEA]

  /** No jump or branch opcode reaches position 4 of StaRom. */
  lemma StaRomNoBranch()
    ensures !NearBranch(StaRom, 4)
  {
    forall j, i | 0 <= j < |Branches| && 0 <= i < Branches[j].1
      ensures Back(StaRom, 4, i) != Branches[j].0
    {
      assert i < 4;
      assert Back(StaRom, 4, i) in {0x18, 0x8D, 0xEA};
    }
  }

  /** A write at 4, the low byte of the STA's operand: valid_byte as written
    * accepts it. */
  lemma StaStoreAccepted()
    ensures ValidByteAsWritten(StaRom, 0xEA, 4, 0x7FC0)
  {
    ReadWord(StaRom, 2);
    ReadWord(StaRom, 3);
    ReadWord(StaRom, 4);
    StaRomNoBranch();
  }

  /** The same write: valid_byte as intended refuses it. */
  lemma StaStoreRefused()
    ensures !ValidByte(StaRom, 0xEA, 4, 0x7FC0)
  {
    ReadWord(StaRom, 4);
    assert StoreBack(StaRom, 4, 1, 1);
  }

  /** As intended, no byte of an STA to a register is ever written. */
  lemma StaOperandProtected(rom: seq<byte>, b: byte, q: nat, loc: nat, offset: nat)
    requires q < |rom| && rom[q] in StaOps && IsRegister(Util.ReadLe(rom, q + 1, 2))
    requires q <= loc <= q + 2
    ensures !ValidByte(rom, b, loc, offset)
  {
    assert StoreBack(rom, loc, loc - q, 1);
  }

  /** What valid_byte promises about any byte it accepts: not in the header
    * (or the byte after it) and not BRK, COP, STP, WAI, REP or SEP. */
  predicate Allowed(offset: nat, b: byte, loc: nat)
  {
    !(offset <= loc <= offset + HeaderSize) && b !in InvalidWrite
  }

  /** Both the check as written and the corrected one keep that promise: the
    * STA read only adds refusals. */
  lemma ValidatorPromises(offset: nat)
    ensures Engine.Promises(Validator(offset), (b: byte, loc: nat) => Allowed(offset, b, loc))
    ensures Engine.Promises(CorrectedValidator(offset), (b: byte, loc: nat) => Allowed(offset, b, loc))
  {
  }

  /** Corruption::corrupt with the SNES valid_byte as written never changes
    * the header and never writes one of the six forbidden opcodes. */
  lemma RunKeepsHeader(rom: seq<byte>, info: Info, offset: nat, draw: nat -> byte, drawn: nat, k: nat)
    requires Engine.Terminates(Engine.BasePass(info, |rom|, Engine.BaseLoop)) && k < |rom|
    ensures var out := Engine.Run(rom, info.start, Engine.BasePass(info, |rom|, Engine.BaseLoop), Validator(offset), draw, drawn, 0).rom;
      out[k] != rom[k] ==> Allowed(offset, out[k], k)
  {
    ValidatorPromises(offset);
    Engine.RunAccepted(rom, info.start, Engine.BasePass(info, |rom|, Engine.BaseLoop), Validator(offset), draw, drawn, 0,
      (b: byte, loc: nat) => Allowed(offset, b, loc), k);
  }
}
