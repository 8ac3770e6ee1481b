// The bitwise operators &, | and ^ on uint8_t operands, bit by bit from the
// least significant bit up.

module Bits {
  import opened Bytes
  import Util

  function AndBit(x: bool, y: bool): bool { x && y }
  function OrBit(x: bool, y: bool): bool { x || y }
  function XorBit(x: bool, y: bool): bool { x != y }

  /** The low n bits of a op b, where op combines one bit of each. */
  function Bitwise(op: (bool, bool) -> bool, a: nat, b: nat, n: nat): (r: nat)
    ensures r < Util.Pow2(n)
  {
    if n == 0 then 0 else LowBit(op, a, b) + 2 * Bitwise(op, a / 2, b / 2, n - 1)
  }

  /** The lowest bit of a op b. */
  function LowBit(op: (bool, bool) -> bool, a: nat, b: nat): (r: nat)
    ensures r < 2
  {
    if op(a % 2 == 1, b % 2 == 1) then 1 else 0
  }

  lemma Pow2Eight()
    ensures Util.Pow2(8) == 0x100
  {
    Util.Pow2Split(0);
  }

  function AndByte(a: byte, b: byte): byte
  {
    Pow2Eight();
    Bitwise(AndBit, a, b, 8)
  }

  function OrByte(a: byte, b: byte): byte
  {
    Pow2Eight();
    Bitwise(OrBit, a, b, 8)
  }

  function XorByte(a: byte, b: byte): byte
  {
    Pow2Eight();
    Bitwise(XorBit, a, b, 8)
  }

  /** x ^ y ^ y == x on n-bit values. */
  lemma {:induction false} XorTwiceBits(a: nat, b: nat, n: nat)
    requires a < Util.Pow2(n)
    ensures Bitwise(XorBit, Bitwise(XorBit, a, b, n), b, n) == a
  {
    if n > 0 {
      var rest := Bitwise(XorBit, a / 2, b / 2, n - 1);
      var c := Bitwise(XorBit, a, b, n);
      var bit := if XorBit(a % 2 == 1, b % 2 == 1) then 1 else 0;
      assert c == bit + 2 * rest;
      assert c % 2 == bit && c / 2 == rest;
      XorTwiceBits(a / 2, b / 2, n - 1);
    }
  }

  /** Xor-ing a byte twice with the same value gives it back. */
  lemma XorTwice(x: byte, y: byte)
    ensures XorByte(XorByte(x, y), y) == x
  {
    Pow2Eight();
    XorTwiceBits(x, y, 8);
  }

  /** a | 0 == a on n-bit values. */
  lemma {:induction false} OrZero(a: nat, n: nat)
    requires a < Util.Pow2(n)
    ensures Bitwise(OrBit, a, 0, n) == a
  {
    if n > 0 {
      OrZero(a / 2, n - 1);
    }
  }

  /** Or-ing a value below 2^k into a multiple of 2^k is addition: the bits
    * do not meet. */
  lemma {:induction false} OrSplit(m: nat, b: nat, k: nat, n: nat)
    requires b < Util.Pow2(k) && k <= n && m * Util.Pow2(k) < Util.Pow2(n)
    ensures Bitwise(OrBit, m * Util.Pow2(k), b, n) == m * Util.Pow2(k) + b
  {
    var a := m * Util.Pow2(k);
    if k == 0 {
      OrZero(a, n);
    } else {
      var h := m * Util.Pow2(k - 1);
      assert a == 2 * h;
      assert a % 2 == 0 && a / 2 == h;
      assert h < Util.Pow2(n - 1);
      OrSplit(m, b / 2, k - 1, n - 1);
    }
  }

  /** a & 0 == 0. */
  lemma {:induction false} AndZero(a: nat, n: nat)
    ensures Bitwise(AndBit, a, 0, n) == 0
  {
    if n > 0 {
      AndZero(a / 2, n - 1);
    }
  }

  /** a & (2^n - 1) == a on n-bit values. */
  lemma {:induction false} AndOnes(a: nat, n: nat)
    requires a < Util.Pow2(n)
    ensures Bitwise(AndBit, a, Util.Pow2(n) - 1, n) == a
  {
    if n > 0 {
      var m := Util.Pow2(n) - 1;
      assert m % 2 == 1 && m / 2 == Util.Pow2(n - 1) - 1;
      AndOnes(a / 2, n - 1);
    }
  }

  /** The low k bits of a, and the bits above them. */
  function Low(a: nat, k: nat): nat
  {
    var p := Util.Pow2(k);
    DivBounds(a, p);
    a % p
  }

  function High(a: nat, k: nat): nat
  {
    var p := Util.Pow2(k);
    DivBounds(a, p);
    a / p
  }

  lemma DivBounds(a: nat, p: nat)
    requires p > 0
    ensures 0 <= a / p && 0 <= a % p < p
  {
  }

  /** Dropping the low bit of Low and of High. */
  lemma HalfOfMod(a: nat, k: nat)
    requires k > 0
    ensures Low(a, k) % 2 == a % 2
    ensures Low(a, k) / 2 == Low(a / 2, k - 1)
    ensures High(a / 2, k - 1) == High(a, k)
  {
    var p := Util.Pow2(k - 1);
    var q := a / 2;
    var lo := 2 * (q % p) + a % 2;
    assert a == (q / p) * (2 * p) + lo;
    Util.DivModOf(q / p, lo, 2 * p);
    Util.DivModOf(q % p, a % 2, 2);
  }

  /** A bitwise operation on n bits is the operation on the low k bits plus
    * 2^k times the operation on the n - k bits above them. */
  lemma {:induction false} BitwiseSplit(op: (bool, bool) -> bool, a: nat, b: nat, k: nat, n: nat)
    requires k <= n
    ensures Bitwise(op, a, b, n) == Bitwise(op, Low(a, k), Low(b, k), k) + Util.Pow2(k) * Bitwise(op, High(a, k), High(b, k), n - k)
  {
    if k > 0 {
      var p, q := Util.Pow2(k - 1), Util.Pow2(k);
      BitwiseSplit(op, a / 2, b / 2, k - 1, n - 1);
      var low := Bitwise(op, Low(a / 2, k - 1), Low(b / 2, k - 1), k - 1);
      var high := Bitwise(op, High(a, k), High(b, k), n - k);
      HalfOfMod(a, k);
      HalfOfMod(b, k);
      LowPart(op, a, b, k, low);
      Assemble(Bitwise(op, a, b, n), LowBit(op, a, b), Bitwise(op, a / 2, b / 2, n - 1), low, high, p,
        Bitwise(op, Low(a, k), Low(b, k), k), q);
    }
  }

  lemma Assemble(whole: nat, bit: nat, rest: nat, low: nat, high: nat, p: nat, lowK: nat, q: nat)
    requires whole == bit + 2 * rest && rest == low + p * high
    requires lowK == bit + 2 * low && q == 2 * p
    ensures whole == lowK + q * high
  {
    Twice(low, p, q, high);
  }

  /** The low k bits of a op b, by their lowest bit. */
  lemma LowPart(op: (bool, bool) -> bool, a: nat, b: nat, k: nat, low: nat)
    requires k > 0 && low == Bitwise(op, Low(a / 2, k - 1), Low(b / 2, k - 1), k - 1)
    ensures Bitwise(op, Low(a, k), Low(b, k), k) == LowBit(op, a, b) + 2 * low
  {
    HalfOfMod(a, k);
    HalfOfMod(b, k);
    assert LowBit(op, Low(a, k), Low(b, k)) == LowBit(op, a, b);
  }

  lemma Twice(x: nat, p: nat, q: nat, y: nat)
    requires q == 2 * p
    ensures 2 * (x + p * y) == 2 * x + q * y
  {
  }

  /** Bit k of a value (0 is the least significant). */
  predicate Bit(a: nat, k: nat)
  {
    High(a, k) % 2 == 1
  }

  /** Bit k of a op b is op applied to bit k of a and bit k of b. */
  lemma {:induction false} BitOf(op: (bool, bool) -> bool, a: nat, b: nat, n: nat, k: nat)
    requires k < n
    ensures Bit(Bitwise(op, a, b, n), k) <==> op(Bit(a, k), Bit(b, k))
  {
    var whole, rest := Bitwise(op, a, b, n), Bitwise(op, a / 2, b / 2, n - 1);
    assert whole == LowBit(op, a, b) + 2 * rest;
    if k == 0 {
      assert High(whole, 0) == whole && High(a, 0) == a && High(b, 0) == b;
    } else {
      BitOf(op, a / 2, b / 2, n - 1, k - 1);
      assert whole / 2 == rest;
      HalfOfMod(whole, k);
      HalfOfMod(a, k);
      HalfOfMod(b, k);
    }
  }
}
