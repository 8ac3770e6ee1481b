// J3D model and animation files (extensions/nintendo/bmd_file.h and .cpp,
// bck_file.h and .cpp, btp_file.cpp): where each file type keeps the bytes the
// corrupter may touch.
//
// A BMD file ("J3D2bmd3") is a 0x20-byte header followed by eight blocks, INF,
// VTX, EVP, DRW, JNT, SHP, MAT and TEX, each beginning with its magic and its
// size. Every block header names the range [begin, end) of its own data that is
// corrupted. A BMT file ("J3D2bmt3") holds only the MAT block, at 0x20. All
// offsets are uint32_t sums and wrap; every field is read with the guarded
// util::read_big, so a field past the end of the buffer reads as 0.

module J3d {
  import opened Bytes
  import Util

  /** A byte range [begin, end) of a buffer, as a pair of iterators would name it. */
  datatype Window = Window(begin: nat, end: nat)

  datatype Block = INF | VTX | EVP | DRW | JNT | SHP | MAT | TEX

  /** The blocks in file order. */
  const Blocks: seq<Block> := [INF, VTX, EVP, DRW, JNT, SHP, MAT, TEX]

  /** The big-endian uint32_t at offset k of the block header at h. */
  function Field(data: seq<byte>, h: u32, k: nat): u32
  {
    Util.ReadBe(data, Wrap32(h + k), 4)
  }

  /** The uint16_t count at offset 8 of the JNT and TEX headers. */
  function Count(data: seq<byte>, h: u32): u16
  {
    Util.ReadBe(data, Wrap32(h + 8), 2)
  }

  /** The header field holding the start of the corrupted data: the data offset
    * (INF at 20, DRW at 16, SHP at 32), the first of the offset tables (VTX and
    * MAT at 12, EVP's fourth at 24), the joint table (JNT at 12) and the
    * texture offset (TEX at 12). */
  function BeginField(b: Block): nat
  {
    match b
    case INF => 20
    case EVP => 24
    case DRW => 16
    case SHP => 32
    case _ => 12
  }

  /** The header field holding the end: the block size at 4, except for JNT
    * (the joint table at 12, plus the joints) and SHP (the packet data at 40,
    * which is left alone). */
  function EndField(b: Block): nat
  {
    match b
    case JNT => 12
    case SHP => 40
    case _ => 4
  }

  /** begin() and end() of the block header at h. TEX skips one 0x20-byte BTI
    * header per image; JNT ends after its 0x40-byte joints. */
  function WindowAt(data: seq<byte>, b: Block, h: u32): Window
  {
    var begin := h + Field(data, h, BeginField(b)) + (if b == TEX then Count(data, h) * 0x20 else 0);
    var end := h + Field(data, h, EndField(b)) + (if b == JNT then Count(data, h) * 0x40 else 0);
    Window(Wrap32(begin), Wrap32(end))
  }

  /** The size of the block whose header is at h. */
  function SizeAt(data: seq<byte>): u32 -> u32
  {
    (h: u32) => Field(data, h, 4)
  }

  /** The offsets of n consecutive block headers from h: each block begins
    * where the one before it ends, at its offset plus its size. */
  function Chain(h: u32, n: nat, size: u32 -> u32): (r: seq<u32>)
    ensures |r| == n
    ensures n > 0 ==> r[0] == h
    decreases n
  {
    if n == 0 then [] else [h] + Chain(Wrap32(h + size(h)), n - 1, size)
  }

  /** The sizes of the blocks at these offsets. */
  function Sizes(offsets: seq<u32>, size: u32 -> u32): (r: seq<u32>)
    ensures |r| == |offsets|
  {
    if offsets == [] then [] else [size(offsets[0])] + Sizes(offsets[1..], size)
  }

  function Sum(s: seq<u32>): nat
  {
    if s == [] then 0 else s[0] + Sum(s[1..])
  }

  /** bmd::detail::Header: the block headers at 0x20 and after, each block's
    * window read from its own header. The header is read once, before any
    * block is corrupted. */
  function Windows(data: seq<byte>): (r: seq<Window>)
    ensures |r| == |Blocks|
    ensures forall i :: 0 <= i < |Blocks| ==> r[i] == WindowAt(data, Blocks[i], Chain(0x20, |Blocks|, SizeAt(data))[i])
  {
    var offsets := Chain(0x20, |Blocks|, SizeAt(data));
    seq(|Blocks|, i requires 0 <= i < |Blocks| => WindowAt(data, Blocks[i], offsets[i]))
  }

  /** bmd::detail::BMTHeader: a lone MAT block at 0x20. */
  function BmtWindow(data: seq<byte>): Window
  {
    WindowAt(data, MAT, 0x20)
  }

  /** BCKFile::corrupt: everything from 0x60 (the header size it assumes) on. */
  function BckWindow(data: seq<byte>): Window
  {
    Window(0x60, |data|)
  }

  /** BTPFile::corrupt: everything after the 0x20-byte header. */
  function BtpWindow(data: seq<byte>): Window
  {
    Window(0x20, |data|)
  }

  lemma WrapAdd(a: int, b: int)
    ensures Wrap32(Wrap32(a) + b) == Wrap32(a + b)
  {
  }

  /** Block i begins at the first block's offset plus the sizes of the blocks
    * before it, modulo 2^32. */
  lemma {:induction false} ChainSum(h: u32, n: nat, size: u32 -> u32, i: nat)
    requires i < n
    ensures Chain(h, n, size)[i] == Wrap32(h + Sum(Sizes(Chain(h, n, size)[..i], size)))
    decreases i
  {
    var c := Chain(h, n, size);
    if i == 0 {
      assert c[..0] == [];
    } else {
      var next := Wrap32(h + size(h));
      var rest := Chain(next, n - 1, size);
      var j := i - 1;
      ChainSum(next, n - 1, size, j);
      var before := rest[..j];
      assert c == [h] + rest;
      assert c[i] == rest[j];
      assert c[..i] == [h] + before;
      SizesCons(h, before, size);
      WrapAdd(h + size(h), Sum(Sizes(before, size)));
    }
  }

  lemma SizesCons(h: u32, rest: seq<u32>, size: u32 -> u32)
    ensures Sum(Sizes([h] + rest, size)) == size(h) + Sum(Sizes(rest, size))
  {
    assert ([h] + rest)[1..] == rest;
  }

  /** The JNT window holds exactly its joints: it ends count * 0x40 bytes past
    * where it begins (modulo 2^32). */
  lemma JntSpan(data: seq<byte>, h: u32)
    ensures var w := WindowAt(data, JNT, h); w.end == Wrap32(w.begin + Count(data, h) * 0x40)
  {
    WrapAdd(h + Field(data, h, 12), Count(data, h) * 0x40);
  }
}
