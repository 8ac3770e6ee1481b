// include/util.h: bounds-guarded endian readers, the C-string reader,
// 8-bit rotations and subset.

module Util {
  import opened Bytes

  // ---------------------------------------------------------------------------
  // read<T> / read_big<T>

  /** util::read<T>: the little-endian value of the `width` bytes at `offset`,
    * or 0 when that window runs past the end of the buffer. */
  function ReadLe(data: seq<byte>, offset: nat, width: nat): (r: nat)
    ensures r < Pow256(width)
    ensures |data| < offset + width ==> r == 0
    ensures offset + width <= |data| ==> ToLE(r, width) == data[offset..offset + width]
  {
    if |data| < offset + width then 0
    else
      var w := data[offset..offset + width];
      LEBound(w);
      ToLEOfLE(w);
      LE(w)
  }

  /** util::read_big<T>: as ReadLe, with the first byte most significant. */
  function ReadBe(data: seq<byte>, offset: nat, width: nat): (r: nat)
    ensures r < Pow256(width)
    ensures |data| < offset + width ==> r == 0
    ensures offset + width <= |data| ==> ToBE(r, width) == data[offset..offset + width]
  {
    if |data| < offset + width then 0
    else
      var w := data[offset..offset + width];
      BEBound(w);
      ToBEOfBE(w);
      BE(w)
  }

  /** A field whose bytes are the big-endian encoding of v reads back as v. */
  lemma BeAt(data: seq<byte>, at: nat, n: nat, v: nat)
    requires at + n <= |data| && v < Pow256(n) && data[at..at + n] == ToBE(v, n)
    ensures ReadBe(data, at, n) == v
  {
    BEOfToBE(v, n);
    BEOfToBE(ReadBe(data, at, n), n);
  }

  /** A field whose bytes are the little-endian encoding of v reads back as v. */
  lemma LeAt(data: seq<byte>, at: nat, n: nat, v: nat)
    requires at + n <= |data| && v < Pow256(n) && data[at..at + n] == ToLE(v, n)
    ensures ReadLe(data, at, n) == v
  {
    LEOfToLE(v, n);
    LEOfToLE(ReadLe(data, at, n), n);
  }

  /** The accumulating loop of read<T>; OR-ing disjoint shifted bytes is addition. */
  method Read(data: seq<byte>, offset: u32, width: nat) returns (r: nat)
    ensures r == ReadLe(data, offset, width)
  {
    if |data| < offset + width {
      return 0;
    }
    r := 0;
    var i := 0;
    while i < width
      invariant 0 <= i <= width
      invariant r == LE(data[offset..offset + i])
    {
      assert data[offset..offset + i + 1][..i] == data[offset..offset + i];
      r := r + data[i + offset] * Pow256(i);
      i := i + 1;
    }
  }

  /** The accumulating loop of read_big<T>, running from the last byte down. */
  method ReadBig(data: seq<byte>, offset: u32, width: nat) returns (r: nat)
    ensures r == ReadBe(data, offset, width)
  {
    if |data| < offset + width {
      return 0;
    }
    r := 0;
    var i := width - 1;
    while i >= 0
      invariant -1 <= i < width
      invariant r == BE(data[offset + i + 1..offset + width])
    {
      assert data[offset + i..offset + width][1..] == data[offset + i + 1..offset + width];
      r := r + data[i + offset] * Pow256(width - 1 - i);
      i := i - 1;
    }
  }

  // ---------------------------------------------------------------------------
  // read (string)

  predicate IsBlank(c: char)
  {
    c == ' ' || c == '\n' || c == '\r' || c == '\t'
  }

  /** `erase(find_last_not_of(" \n\r\t") + 1)`: drop the trailing blanks. */
  function TrimRight(s: string): (r: string)
    ensures |r| <= |s| && r == s[..|r|]
    ensures r == [] || !IsBlank(r[|r| - 1])
    ensures forall i :: |r| <= i < |s| ==> IsBlank(s[i])
  {
    if s != [] && IsBlank(s[|s| - 1]) then TrimRight(s[..|s| - 1]) else s
  }

  /** Index of the first NUL byte at or after `from`, if there is one. */
  function NulFrom(data: seq<byte>, from: nat): (r: Option<nat>)
    decreases |data| - from
    ensures r.Some? ==> from <= r.value < |data| && data[r.value] == 0
    ensures r.Some? ==> forall k :: from <= k < r.value ==> data[k] != 0
    ensures r.None? ==> forall k :: from <= k < |data| ==> data[k] != 0
  {
    if from >= |data| then None
    else if data[from] == 0 then Some(from)
    else NulFrom(data, from + 1)
  }

  /** util::read(data, offset, size): "" when offset + size passes the end;
    * with size 0 the text up to the next NUL; trailing blanks trimmed.
    * None stands for the scan that runs off the end: the source then reads
    * data[data.size()], which is undefined. */
  function ReadText(data: seq<byte>, offset: nat, size: nat): (r: Option<string>)
  {
    if |data| < offset + size then Some("")
    else if size > 0 then Some(TrimRight(Chars(data[offset..offset + size])))
    else match NulFrom(data, offset)
      case Some(k) => Some(TrimRight(Chars(data[offset..k])))
      case None => None
  }

  /** The guard and NUL-scan loop of util::read. */
  method ReadString(data: seq<byte>, offset: u32, size: nat) returns (r: Option<string>)
    ensures r == ReadText(data, offset, size)
  {
    if |data| < offset + size {
      return Some("");
    }
    var length := size;
    if length == 0 {
      while true
        invariant offset + length <= |data|
        invariant forall k :: offset <= k < offset + length ==> data[k] != 0
        decreases |data| - (offset + length)
      {
        if offset + length >= |data| {
          return None;
        }
        if data[offset + length] == 0 {
          break;
        }
        length := length + 1;
      }
      assert NulFrom(data, offset) == Some(offset + length) by {
        NulFromFirst(data, offset, offset + length);
      }
    }
    r := Some(TrimRight(Chars(data[offset..offset + length])));
  }

  lemma NulFromFirst(data: seq<byte>, from: nat, k: nat)
    requires from <= k < |data| && data[k] == 0
    requires forall j :: from <= j < k ==> data[j] != 0
    ensures NulFrom(data, from) == Some(k)
  {
    var r := NulFrom(data, from);
    assert r.Some?;
    assert !(r.value < k) && !(k < r.value);
  }

  /** A fixed-width read compares equal to a literal tag exactly when the
    * raw bytes spell it, provided the tag does not end in a blank. */
  lemma {:induction false} ReadTextTag(data: seq<byte>, offset: nat, tag: string)
    requires |tag| > 0 && !IsBlank(tag[|tag| - 1])
    requires offset + |tag| <= |data|
    ensures ReadText(data, offset, |tag|) == Some(tag) <==> Chars(data[offset..offset + |tag|]) == tag
  {
    var raw := Chars(data[offset..offset + |tag|]);
    var t := TrimRight(raw);
    if t == tag {
      assert |t| == |raw|;
      assert t == raw;
    }
  }

  // ---------------------------------------------------------------------------
  // rol / ror on uint8_t

  function Pow2(k: nat): (r: nat)
    ensures r >= 1
  {
    if k == 0 then 1 else 2 * Pow2(k - 1)
  }

  lemma Pow2Split(k: nat)
    requires k <= 8
    ensures Pow2(k) * Pow2(8 - k) == 0x100 && Pow2(8 - k) * Pow2(k) == 0x100
  {
    assert Pow2(0) == 1 && Pow2(1) == 2 && Pow2(2) == 4 && Pow2(3) == 8 && Pow2(4) == 16;
    assert Pow2(5) == 32 && Pow2(6) == 64 && Pow2(7) == 128 && Pow2(8) == 256;
  }

  lemma MulMono(a: int, b: int, c: nat)
    requires a <= b
    ensures a * c <= b * c
  {
  }

  lemma DivModOf(lo: nat, hi: nat, p: nat)
    requires hi < p
    ensures (lo * p + hi) / p == lo && (lo * p + hi) % p == hi
  {
    var y := lo * p + hi;
    var d, m := y / p, y % p;
    assert y == d * p + m;
    assert (lo - d) * p == m - hi;
    if lo - d >= 1 { MulMono(1, lo - d, p); }
    if lo - d <= -1 { MulMono(lo - d, -1, p); }
  }

  /** Moving the low part of x above its high part, for a byte split p * q = 256. */
  lemma Halves(x: byte, p: nat, q: nat)
    requires p * q == 0x100 && p >= 1 && q >= 1
    ensures (x % q) * p + x / q < 0x100
    ensures ((x % q) * p + x / q) % p == x / q
    ensures ((x % q) * p + x / q) / p == x % q
    ensures x == (x / q) * q + x % q
  {
    var lo, hi := x % q, x / q;
    assert x == hi * q + lo;
    assert hi < p by {
      if hi >= p { MulMono(p, hi, q); }
    }
    MulMono(lo, q - 1, p);
    assert (q - 1) * p == 0x100 - p;
    DivModOf(lo, hi, p);
  }

  /** rol<uint8_t>(x, n) = x << (n % 8) | x >> (8 - n % 8), computed on the int
    * that x is promoted to and truncated back to 8 bits: the bits shifted out at
    * the top are dropped, and a rotation by a multiple of 8 returns x. */
  function Rol8(x: byte, n: nat): (r: byte)
  {
    var k := n % 8;
    Pow2Split(k);
    Halves(x, Pow2(k), Pow2(8 - k));
    (x % Pow2(8 - k)) * Pow2(k) + x / Pow2(8 - k)
  }

  /** ror<uint8_t>(x, n) = x >> (n % 8) | x << (8 - n % 8), truncated to 8 bits. */
  function Ror8(x: byte, n: nat): (r: byte)
  {
    var k := n % 8;
    Pow2Split(k);
    Halves(x, Pow2(8 - k), Pow2(k));
    x / Pow2(k) + (x % Pow2(k)) * Pow2(8 - k)
  }

  /** ror undoes rol and rol undoes ror, for every shift count. */
  lemma RorUndoesRol(x: byte, n: nat)
    ensures Ror8(Rol8(x, n), n) == x
    ensures Rol8(Ror8(x, n), n) == x
  {
    var k := n % 8;
    var p, q := Pow2(k), Pow2(8 - k);
    Pow2Split(k);
    Halves(x, p, q);
    Halves(x, q, p);
  }

  /** read<uint32_t> of the instruction holding loc: the word at loc rounded
    * down to a multiple of 4. */
  function WordAt(rom: seq<byte>, loc: nat): nat
  {
    ReadLe(rom, loc - loc % 4, 4)
  }

  /** Every location of an aligned word reads that word. */
  lemma WordAtOf(rom: seq<byte>, a: nat, loc: nat)
    requires a % 4 == 0 && a <= loc < a + 4 && a + 4 <= |rom|
    ensures WordAt(rom, loc) == LE(rom[a..a + 4])
  {
    DivModOf(a / 4, loc - a, 4);
  }

  // ---------------------------------------------------------------------------
  // subset

  /** util::subset: the `count` elements from `start`; the source has no check. */
  function Subset<T>(v: seq<T>, start: nat, count: nat): (r: seq<T>)
    requires start + count <= |v|
    ensures |r| == count
    ensures forall i :: 0 <= i < count ==> r[i] == v[start + i]
  {
    v[start..start + count]
  }
}
