// Fixed-width integers and byte-sequence values shared by every part of the model.
//
// The C++ program works on std::vector<uint8_t> buffers and uint16_t/uint32_t
// fields. Dafny integers are unbounded, so the widths are subset types and every
// place where the source relies on uint32_t wrap-around calls Wrap32 explicitly.

module Bytes {

  type byte = x: int | 0 <= x < 0x100
  type u16 = x: int | 0 <= x < 0x1_0000
  type u32 = x: int | 0 <= x < 0x1_0000_0000

  const U32_MAX: u32 := 0xFFFF_FFFF

  datatype Option<T> = None | Some(value: T)

  /** The result of code that can leave the model: Undefined stands for
    * undefined behaviour in the source (an unchecked read past the end of a
    * buffer, an iterator range past its end), Unmodelled for behaviour the model
    * does not decide (a fuel bound reached, a uint32_t offset that would wrap
    * into a revisit). */
  datatype Res<T> = Ok(value: T) | Undefined | Unmodelled

  /** Reduction of an arithmetic result to uint32_t. */
  function Wrap32(x: int): (r: u32)
    ensures 0 <= x < 0x1_0000_0000 ==> r == x
    ensures 0x1_0000_0000 <= x < 0x2_0000_0000 ==> r == x - 0x1_0000_0000
  {
    x % 0x1_0000_0000
  }

  /** Reduction of an arithmetic result to uint8_t. */
  function Wrap8(x: int): (r: byte)
    ensures 0 <= x < 0x100 ==> r == x
    ensures 0x100 <= x < 0x200 ==> r == x - 0x100
  {
    x % 0x100
  }

  function Pow256(n: nat): (r: nat)
    ensures r >= 1
  {
    if n == 0 then 1 else 256 * Pow256(n - 1)
  }

  /** rom[loc - back], or -1 (which matches no byte) where that index is not
    * in the ROM. */
  function Back(rom: seq<byte>, loc: nat, back: nat): (r: int)
    ensures -1 <= r < 0x100
    ensures back <= loc < |rom| + back ==> r == rom[loc - back]
  {
    if back <= loc < |rom| + back then rom[loc - back] else -1
  }

  /** Value of a little-endian byte string: the last byte is the most significant. */
  function LE(s: seq<byte>): nat
  {
    if s == [] then 0 else LE(s[..|s| - 1]) + s[|s| - 1] * Pow256(|s| - 1)
  }

  /** The bounds of uint16_t and uint32_t as powers of 256. */
  lemma Widths()
    ensures Pow256(2) == 0x1_0000 && Pow256(4) == 0x1_0000_0000
  {
  }

  /** The value of a 4-byte little-endian string, byte by byte. */
  lemma LE4(s: seq<byte>)
    requires |s| == 4
    ensures LE(s) == s[0] as int + 0x100 * s[1] as int + 0x1_0000 * s[2] as int + 0x100_0000 * s[3] as int
  {
    assert Pow256(1) == 0x100 && Pow256(2) == 0x1_0000 && Pow256(3) == 0x100_0000;
    assert s[..3][..2][..1][..0] == [];
    assert LE(s[..3][..2][..1]) == s[0];
    assert LE(s[..3][..2]) == s[0] as int + 0x100 * s[1] as int;
    assert LE(s[..3]) == s[0] as int + 0x100 * s[1] as int + 0x1_0000 * s[2] as int;
  }

  /** Value of a big-endian byte string: the first byte is the most significant. */
  function BE(s: seq<byte>): nat
  {
    if s == [] then 0 else s[0] * Pow256(|s| - 1) + BE(s[1..])
  }

  /** The n-byte big-endian encoding of v modulo 256^n. */
  function ToBE(v: nat, n: nat): (r: seq<byte>)
    ensures |r| == n
  {
    if n == 0 then [] else ToBE(v / 256, n - 1) + [v % 256]
  }

  /** The n-byte little-endian encoding of v modulo 256^n. */
  function ToLE(v: nat, n: nat): (r: seq<byte>)
    ensures |r| == n
  {
    if n == 0 then [] else [v % 256] + ToLE(v / 256, n - 1)
  }

  function Reverse<T>(s: seq<T>): (r: seq<T>)
    ensures |r| == |s|
  {
    if s == [] then [] else Reverse(s[1..]) + [s[0]]
  }

  lemma {:induction false} LEBound(s: seq<byte>)
    ensures LE(s) < Pow256(|s|)
  {
    if s != [] {
      var q := Pow256(|s| - 1);
      LEBound(s[..|s| - 1]);
      MulLe(s[|s| - 1], 255, q);
      assert Pow256(|s|) == 256 * q;
    }
  }

  lemma MulLe(a: nat, b: nat, c: nat)
    requires a <= b
    ensures a * c <= b * c
  {
  }

  /** Splitting off the first byte of a little-endian string. */
  lemma {:induction false} LEFront(s: seq<byte>)
    requires s != []
    ensures LE(s) == s[0] + 256 * LE(s[1..])
  {
    if |s| > 1 {
      LEFront(s[..|s| - 1]);
      assert s[..|s| - 1][1..] == s[1..][..|s[1..]| - 1];
      assert s[..|s| - 1][0] == s[0];
    }
  }

  lemma {:induction false} BEBound(s: seq<byte>)
    ensures BE(s) < Pow256(|s|)
  {
    if s != [] {
      var q := Pow256(|s| - 1);
      BEBound(s[1..]);
      MulLe(s[0], 255, q);
      assert Pow256(|s|) == 256 * q;
    }
  }

  /** Splitting off the last byte of a big-endian string. */
  lemma {:induction false} BEBack(s: seq<byte>)
    requires s != []
    ensures BE(s) == 256 * BE(s[..|s| - 1]) + s[|s| - 1]
  {
    if |s| > 1 {
      BEBack(s[1..]);
      assert s[1..][..|s[1..]| - 1] == s[..|s| - 1][1..];
      assert s[..|s| - 1][0] == s[0];
    }
  }

  /** A big-endian string is the little-endian string read backwards. */
  lemma {:induction false} BEIsReversedLE(s: seq<byte>)
    ensures BE(s) == LE(Reverse(s))
  {
    if s != [] {
      BEIsReversedLE(s[1..]);
      var r := Reverse(s);
      assert r == Reverse(s[1..]) + [s[0]];
      assert r[..|r| - 1] == Reverse(s[1..]);
    }
  }

  lemma {:induction false} BEOfToBE(v: nat, n: nat)
    requires v < Pow256(n)
    ensures BE(ToBE(v, n)) == v
  {
    if n > 0 {
      var r := ToBE(v, n);
      BEOfToBE(v / 256, n - 1);
      BEBack(r);
      assert r[..|r| - 1] == ToBE(v / 256, n - 1);
    }
  }

  lemma {:induction false} ToBEOfBE(s: seq<byte>)
    ensures ToBE(BE(s), |s|) == s
  {
    if s != [] {
      var p := s[..|s| - 1];
      BEBack(s);
      ToBEOfBE(p);
      assert BE(s) / 256 == BE(p);
      assert BE(s) % 256 == s[|s| - 1];
      assert s == p + [s[|s| - 1]];
    }
  }

  lemma {:induction false} LEOfToLE(v: nat, n: nat)
    requires v < Pow256(n)
    ensures LE(ToLE(v, n)) == v
  {
    if n > 0 {
      var r := ToLE(v, n);
      LEOfToLE(v / 256, n - 1);
      LEFront(r);
      assert r[1..] == ToLE(v / 256, n - 1);
    }
  }

  lemma {:induction false} ToLEOfLE(s: seq<byte>)
    ensures ToLE(LE(s), |s|) == s
  {
    if s != [] {
      LEFront(s);
      ToLEOfLE(s[1..]);
      assert LE(s) / 256 == LE(s[1..]);
      assert LE(s) % 256 == s[0];
      assert s == [s[0]] + s[1..];
    }
  }

  /** Bytes viewed as the chars of a std::string (char codes 0..255). */
  function Chars(s: seq<byte>): (r: string)
    ensures |r| == |s|
    ensures forall i :: 0 <= i < |s| ==> r[i] as int == s[i]
  {
    if s == [] then [] else [s[0] as char] + Chars(s[1..])
  }

  /** Chars of a string all of whose codes fit in a byte. */
  predicate IsByteString(t: string)
  {
    forall i :: 0 <= i < |t| ==> t[i] as int < 0x100
  }

  function Unchars(t: string): (r: seq<byte>)
    requires IsByteString(t)
    ensures |r| == |t|
    ensures Chars(r) == t
  {
    if t == [] then [] else [t[0] as int] + Unchars(t[1..])
  }

  /** Bytes are determined by their chars. */
  lemma CharsInjective(a: seq<byte>, b: seq<byte>)
    requires Chars(a) == Chars(b)
    ensures a == b
  {
    assert |a| == |Chars(a)|;
    forall i | 0 <= i < |a| ensures a[i] == b[i] {
      assert Chars(a)[i] == Chars(b)[i];
    }
  }
}
