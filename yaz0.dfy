// extensions/nintendo/yaz0.cpp: the Yaz0 LZ codec.
//
// A Yaz0 stream is "Yaz0", the big-endian decoded size, 8 unused bytes, then
// groups of one control byte and up to eight units. Control bits are read
// from the most significant down; a set bit is a literal byte, a clear bit a
// back-reference of two bytes (a four-bit length nibble and a 12-bit
// distance) or three (nibble 0, distance, then length - 0x12).
//
// The model has three layers: tokens (Lit / Ref) with their meaning Expand
// and their byte form Body; the decoder decodeYaz0 as the step function
// Inflate and the method DecodeYaz0 that runs it over a dst array; and the
// encoder (simpleEnc, Encoder::nintendoEnc, encode) as methods that emit
// Body of a token sequence whose expansion is the input.

module Yaz0 {
  import opened Bytes
  import Util
  import Bits

  // ---------------------------------------------------------------------------
  // Control bytes

  /** The byte whose bit 7 - k - i is flag i: the control byte of a group
    * whose first k units are already accounted for. */
  function PackW(f: seq<bool>, k: nat): (r: nat)
    requires k + |f| <= 8
    ensures r < Util.Pow2(8 - k)
  {
    if f == [] then 0 else (if f[0] then Util.Pow2(7 - k) else 0) + PackW(f[1..], k + 1)
  }

  lemma Pow2Byte()
    ensures Util.Pow2(8) == 0x100 && Util.Pow2(7) == 0x80
  {
    Bits.Pow2Eight();
  }

  lemma {:induction false} PackDouble(f: seq<bool>, k: nat)
    requires 1 <= k && k + |f| <= 8
    ensures 2 * PackW(f, k) == PackW(f, k - 1)
  {
    if f != [] {
      PackDouble(f[1..], k + 1);
    }
  }

  /** The decoder's test (code & 0x80) != 0 sees the first flag. */
  lemma PackTop(f: seq<bool>)
    requires 1 <= |f| <= 8
    ensures PackW(f, 0) >= 0x80 <==> f[0]
  {
    Pow2Byte();
  }

  /** The decoder's code <<= 1 on a uint8_t moves on to the next flag. */
  lemma PackShift(f: seq<bool>)
    requires 1 <= |f| <= 8
    ensures Wrap8(PackW(f, 0) * 2) == PackW(f[1..], 0)
  {
    Pow2Byte();
    PackDouble(f[1..], 1);
  }

  lemma {:induction false} PackSnoc(f: seq<bool>, x: bool, k: nat, e: nat)
    requires k + |f| + 1 <= 8 && e == 7 - k - |f|
    ensures PackW(f + [x], k) == PackW(f, k) + (if x then Util.Pow2(e) else 0)
  {
    if f != [] {
      assert (f + [x])[1..] == f[1..] + [x];
      PackSnoc(f[1..], x, k + 1, e);
    }
  }

  lemma {:induction false} Pow2Add(a: nat, b: nat)
    ensures Util.Pow2(a + b) == Util.Pow2(a) * Util.Pow2(b)
  {
    if a > 0 {
      Pow2Add(a - 1, b);
    }
  }

  lemma Distrib(a: nat, b: nat, p: nat)
    ensures (a + b) * p == a * p + b * p
  {
  }

  /** The bits below the flags are clear. */
  lemma {:induction false} PackMultiple(f: seq<bool>, k: nat) returns (m: nat)
    requires k + |f| <= 8
    ensures PackW(f, k) == m * Util.Pow2(8 - k - |f|)
  {
    if f == [] {
      m := 0;
    } else {
      var e := 8 - k - |f|;
      var m' := PackMultiple(f[1..], k + 1);
      var p, w := Util.Pow2(e), Util.Pow2(|f| - 1);
      assert 7 - k == e + (|f| - 1);
      Pow2Add(e, |f| - 1);
      var top := if f[0] then w else 0;
      assert (if f[0] then Util.Pow2(7 - k) else 0) == top * p by {
        if f[0] {
          assert Util.Pow2(7 - k) == p * w == w * p;
        }
      }
      assert PackW(f[1..], k + 1) == m' * p;
      m := top + m';
      Distrib(top, m', p);
    }
  }

  /** The encoder's currCodeByte |= 0x80 >> validBitCount sets the next flag. */
  lemma OrFlag(f: seq<bool>)
    requires |f| < 8
    ensures PackW(f, 0) < 0x100 && Bits.OrByte(PackW(f, 0), Util.Pow2(7 - |f|)) == PackW(f + [true], 0)
  {
    PackOr(f);
    PackSnocFlag(f);
  }

  lemma PackSnocFlag(f: seq<bool>)
    requires |f| < 8
    ensures PackW(f + [true], 0) == PackW(f, 0) + Util.Pow2(7 - |f|)
  {
    PackSnoc(f, true, 0, 7 - |f|);
  }

  /** The flags so far leave the bit of the next one clear. */
  lemma PackOr(f: seq<bool>)
    requires |f| < 8
    ensures PackW(f, 0) < 0x100 && Util.Pow2(7 - |f|) < 0x100
    ensures Bits.OrByte(PackW(f, 0), Util.Pow2(7 - |f|)) == PackW(f, 0) + Util.Pow2(7 - |f|)
  {
    Pow2Byte();
    var m := PackMultiple(f, 0);
    var a, b, k := PackW(f, 0), Util.Pow2(7 - |f|), 8 - |f|;
    assert Util.Pow2(k) == 2 * b;
    assert a == m * Util.Pow2(k) && a < Util.Pow2(8);
    Bits.OrSplit(m, b, k, 8);
  }

  // ---------------------------------------------------------------------------
  // Tokens

  /** A literal byte, or a run of len bytes copied from dist + 1 bytes back. */
  datatype Token = Lit(b: byte) | Ref(dist: nat, len: nat)

  /** What the 12-bit distance and the 2- and 3-byte forms can hold. */
  predicate WellFormed(t: Token)
  {
    t.Ref? ==> t.dist < 0x1000 && 3 <= t.len <= 0x111
  }

  predicate AllWellFormed(ts: seq<Token>)
  {
    forall i :: 0 <= i < |ts| ==> WellFormed(ts[i])
  }

  /** The units a token is written as, after its control bit. */
  function Units(t: Token): (r: seq<byte>)
    requires WellFormed(t)
    ensures 1 <= |r| <= 3
  {
    match t
    case Lit(b) => [b]
    case Ref(d, n) =>
      if n >= 0x12 then [d / 0x100, d % 0x100, n - 0x12]
      else [(n - 2) * 0x10 + d / 0x100, d % 0x100]
  }

  function UnitsOf(ts: seq<Token>): (r: seq<byte>)
    requires AllWellFormed(ts)
    ensures |r| <= 3 * |ts|
  {
    if ts == [] then [] else Units(ts[0]) + UnitsOf(ts[1..])
  }

  function Flags(ts: seq<Token>): (r: seq<bool>)
    ensures |r| == |ts|
  {
    if ts == [] then [] else [ts[0].Lit?] + Flags(ts[1..])
  }

  /** A control byte and the units of up to eight tokens. */
  function Group(ts: seq<Token>): (r: seq<byte>)
    requires AllWellFormed(ts) && |ts| <= 8
  {
    [PackW(Flags(ts), 0)] + UnitsOf(ts)
  }

  /** The tokens cut into groups of eight, the last one possibly shorter. */
  function Body(ts: seq<Token>): (r: seq<byte>)
    requires AllWellFormed(ts)
  {
    if ts == [] then []
    else if |ts| <= 8 then Group(ts)
    else Group(ts[..8]) + Body(ts[8..])
  }

  /** The run copy: n bytes, each from the position `from` has reached, one
    * at a time, so a run may read what it has just written. */
  function CopyRun(out: seq<byte>, from: nat, n: nat): (r: seq<byte>)
    requires n == 0 || from < |out|
    ensures |r| == |out| + n
    decreases n
  {
    if n == 0 then out else CopyRun(out + [out[from]], from + 1, n - 1)
  }

  /** What one token appends to `out`; None when a run reaches back before the start. */
  function Play(out: seq<byte>, t: Token): (r: Option<seq<byte>>)
    ensures r.Some? ==> |r.value| > |out| || (t.Ref? && t.len == 0)
    ensures r.Some? ==> |r.value| >= |out|
  {
    match t
    case Lit(b) => Some(out + [b])
    case Ref(d, n) => if |out| < d + 1 then None else Some(CopyRun(out, |out| - (d + 1), n))
  }

  /** What the tokens append to `out`, one after the other. */
  function Expand(out: seq<byte>, ts: seq<Token>): (r: Option<seq<byte>>)
    ensures r.Some? ==> |r.value| >= |out|
    decreases |ts|
  {
    if ts == [] then Some(out)
    else match Play(out, ts[0])
      case None => None
      case Some(next) => Expand(next, ts[1..])
  }

  lemma {:induction false} ExpandAppend(out: seq<byte>, a: seq<Token>, b: seq<Token>)
    ensures Expand(out, a + b) == match Expand(out, a) case None => None case Some(mid) => Expand(mid, b)
    decreases |a|
  {
    if a != [] {
      assert a + b != [] && (a + b)[0] == a[0] && (a + b)[1..] == a[1..] + b;
      match Play(out, a[0])
      case None =>
      case Some(next) => ExpandAppend(next, a[1..], b);
    } else {
      assert a + b == b;
    }
  }

  /** Every well-formed token adds at least one byte. */
  lemma {:induction false} ExpandGrows(out: seq<byte>, ts: seq<Token>)
    requires AllWellFormed(ts) && Expand(out, ts).Some?
    ensures |Expand(out, ts).value| >= |out| + |ts|
    decreases |ts|
  {
    if ts != [] {
      assert WellFormed(ts[0]);
      assert AllWellFormed(ts[1..]) by {
        forall i | 0 <= i < |ts| - 1 ensures WellFormed(ts[1..][i]) {
          assert ts[1..][i] == ts[i + 1];
        }
      }
      ExpandGrows(Play(out, ts[0]).value, ts[1..]);
    }
  }

  // ---------------------------------------------------------------------------
  // decodeYaz0

  /** The decoder's cursors: src position, what dst holds up to dstPos, the
    * current code byte and how many of its bits are left. */
  datatype DState = DState(s: nat, out: seq<byte>, code: byte, bits: nat)

  /** Literal or run at the current control bit. A read past src and a write
    * past the cap bytes of dst are undefined in the source; the bare `throw;`
    * when the run would start before dst is std::terminate. All are None. */
  function Consume(src: seq<byte>, cap: nat, st: DState): (r: Option<DState>)
    requires 1 <= st.bits <= 8
    ensures r.Some? ==> |r.value.out| > |st.out|
    ensures r.Some? ==> r.value.bits == st.bits - 1 && r.value.code == Wrap8(st.code as int * 2)
  {
    if st.code >= 0x80 then ConsumeLit(src, cap, st) else ConsumeRun(src, cap, st)
  }

  /** A set control bit: one byte copied from src. */
  function ConsumeLit(src: seq<byte>, cap: nat, st: DState): (r: Option<DState>)
    requires 1 <= st.bits <= 8
    ensures r.Some? ==> |r.value.out| == |st.out| + 1
    ensures r.Some? ==> r.value.bits == st.bits - 1 && r.value.code == Wrap8(st.code as int * 2)
  {
    if st.s >= |src| || |st.out| >= cap then None
    else Some(DState(st.s + 1, st.out + [src[st.s]], Wrap8(st.code as int * 2), st.bits - 1))
  }

  /** A clear control bit: a run, its distance and length in two or three bytes. */
  function ConsumeRun(src: seq<byte>, cap: nat, st: DState): (r: Option<DState>)
    requires 1 <= st.bits <= 8
    ensures r.Some? ==> |r.value.out| > |st.out|
    ensures r.Some? ==> r.value.bits == st.bits - 1 && r.value.code == Wrap8(st.code as int * 2)
  {
    if st.s + 1 >= |src| then None
    else
      var b1, b2 := src[st.s], src[st.s + 1];
      var dist: nat := (b1 as int % 0x10) * 0x100 + b2 as int;
      if |st.out| < dist + 1 then None
      else if b1 / 0x10 == 0 && st.s + 2 >= |src| then None
      else
        var n: nat := if b1 / 0x10 == 0 then src[st.s + 2] as int + 0x12 else b1 / 0x10 + 2;
        var s := if b1 / 0x10 == 0 then st.s + 3 else st.s + 2;
        if |st.out| + n > cap then None
        else Some(DState(s, CopyRun(st.out, |st.out| - (dist + 1), n), Wrap8(st.code as int * 2), st.bits - 1))
  }

  /** One pass of the while loop: a fresh control byte when the bits are used up, then one unit. */
  function Step(src: seq<byte>, cap: nat, st: DState): (r: Option<DState>)
    requires st.bits <= 8
    ensures r.Some? ==> |r.value.out| > |st.out| && r.value.bits < 8
  {
    if st.bits == 0 then
      if st.s >= |src| then None else Consume(src, cap, DState(st.s + 1, st.out, src[st.s], 8))
    else Consume(src, cap, st)
  }

  datatype Inflated = Inflated(srcPos: nat, out: seq<byte>) | Abort

  /** The while loop: units until dst holds at least `size` bytes. */
  function Inflate(src: seq<byte>, size: nat, cap: nat, st: DState): (r: Inflated)
    requires st.bits <= 8
    ensures r.Inflated? ==> |r.out| >= size
    decreases size - |st.out|
  {
    if |st.out| >= size then Inflated(st.s, st.out)
    else match Step(src, cap, st)
      case None => Abort
      case Some(next) => Inflate(src, size, cap, next)
  }

  /** decodeYaz0's result: bytes read from src and bytes written to dst. */
  datatype Ret = Ret(srcPos: nat, dstPos: nat)

  /** The run loop: dst[dstPos + i] = dst[copySource + i]. */
  method CopyInto(dst: array<byte>, from: nat, at: nat, n: nat)
    requires from < at && at + n <= dst.Length
    modifies dst
    ensures dst[..at + n] == CopyRun(old(dst[..at]), from, n)
    ensures dst[at + n..] == old(dst[at + n..])
  {
    var i := 0;
    ghost var want := CopyRun(old(dst[..at]), from, n);
    while i < n
      invariant 0 <= i <= n
      invariant CopyRun(dst[..at + i], from + i, n - i) == want
      invariant dst[at + n..] == old(dst[at + n..])
    {
      ghost var prev := dst[..at + i];
      dst[at + i] := dst[from + i];
      assert dst[..at + i + 1] == prev + [prev[from + i]];
      i := i + 1;
    }
  }

  /** The literal or run at the current control bit, on the dst array. */
  method DecodeToken(src: seq<byte>, dst: array<byte>, s: nat, d: nat, code: byte, bits: nat)
    returns (r: Option<DState>)
    requires 1 <= bits <= 8 && d <= dst.Length
    modifies dst
    ensures r.Some? ==> |r.value.out| <= dst.Length && dst[..|r.value.out|] == r.value.out
    ensures r == Consume(src, dst.Length, DState(s, old(dst[..d]), code, bits))
  {
    if code >= 0x80 {
      r := DecodeLit(src, dst, s, d, code, bits);
    } else {
      r := DecodeRun(src, dst, s, d, code, bits);
    }
  }

  method DecodeLit(src: seq<byte>, dst: array<byte>, s: nat, d: nat, code: byte, bits: nat)
    returns (r: Option<DState>)
    requires 1 <= bits <= 8 && d <= dst.Length
    modifies dst
    ensures r.Some? ==> |r.value.out| <= dst.Length && dst[..|r.value.out|] == r.value.out
    ensures r == ConsumeLit(src, dst.Length, DState(s, old(dst[..d]), code, bits))
  {
    ghost var before := dst[..d];
    if s >= |src| || d >= dst.Length {
      return None;
    }
    dst[d] := src[s];
    assert dst[..d + 1] == before + [src[s]];
    return Some(DState(s + 1, dst[..d + 1], Wrap8(code as int * 2), bits - 1));
  }

  method DecodeRun(src: seq<byte>, dst: array<byte>, s: nat, d: nat, code: byte, bits: nat)
    returns (r: Option<DState>)
    requires 1 <= bits <= 8 && d <= dst.Length
    modifies dst
    ensures r.Some? ==> |r.value.out| <= dst.Length && dst[..|r.value.out|] == r.value.out
    ensures r == ConsumeRun(src, dst.Length, DState(s, old(dst[..d]), code, bits))
  {
    if s + 1 >= |src| {
      return None;
    }
    var byte1, byte2 := src[s], src[s + 1];
    var dist: nat := (byte1 as int % 0x10) * 0x100 + byte2 as int;
    if d < dist + 1 {
      return None;
    }
    var n: nat := byte1 / 0x10;
    var srcPos := s + 2;
    if n == 0 {
      if s + 2 >= |src| {
        return None;
      }
      n := src[s + 2] as int + 0x12;
      srcPos := s + 3;
    } else {
      n := n + 2;
    }
    if d + n > dst.Length {
      return None;
    }
    CopyInto(dst, d - (dist + 1), d, n);
    return Some(DState(srcPos, dst[..d + n], Wrap8(code as int * 2), bits - 1));
  }

  /** The loop body of decodeYaz0: a fresh code byte when the bits are used up, then one unit. */
  method DecodeUnit(src: seq<byte>, dst: array<byte>, s: nat, d: nat, code: byte, bits: nat)
    returns (r: Option<DState>)
    requires bits <= 8 && d <= dst.Length
    modifies dst
    ensures r.Some? ==> |r.value.out| <= dst.Length && dst[..|r.value.out|] == r.value.out
    ensures r == Step(src, dst.Length, DState(s, old(dst[..d]), code, bits))
  {
    if bits == 0 {
      if s >= |src| {
        return None;
      }
      r := DecodeToken(src, dst, s + 1, d, src[s], 8);
    } else {
      r := DecodeToken(src, dst, s, d, code, bits);
    }
  }

  /** decodeYaz0(src, srcSize, dst, uncompressedSize): None where the source
    * reads past src, writes past dst or terminates. */
  method DecodeYaz0(src: seq<byte>, dst: array<byte>, size: nat) returns (r: Option<Ret>)
    modifies dst
    ensures match Inflate(src, size, dst.Length, DState(0, [], 0, 0))
      case Abort => r.None?
      case Inflated(s, out) => r == Some(Ret(s, |out|)) && |out| <= dst.Length && dst[..|out|] == out
  {
    var srcPos, dstPos, code, bits := 0, 0, 0, 0;
    ghost var want := Inflate(src, size, dst.Length, DState(0, [], 0, 0));
    while dstPos < size
      invariant bits <= 8 && dstPos <= dst.Length
      invariant Inflate(src, size, dst.Length, DState(srcPos, dst[..dstPos], code, bits)) == want
      decreases size - dstPos
    {
      var st := DecodeUnit(src, dst, srcPos, dstPos, code, bits);
      if st.None? {
        return None;
      }
      srcPos, dstPos, code, bits := st.value.s, |st.value.out|, st.value.code, st.value.bits;
    }
    return Some(Ret(srcPos, dstPos));
  }

  // ---------------------------------------------------------------------------
  // The decoder reads back what Body writes

  lemma AllWellFormedSlice(ts: seq<Token>, i: nat, j: nat)
    requires AllWellFormed(ts) && i <= j <= |ts|
    ensures AllWellFormed(ts[i..j])
  {
    forall k | 0 <= k < j - i ensures WellFormed(ts[i..j][k]) {
      assert ts[i..j][k] == ts[i + k];
    }
  }

  /** The units of a back-reference decode to its distance and length. */
  lemma RefUnits(d: nat, n: nat)
    requires WellFormed(Ref(d, n))
    ensures var u := Units(Ref(d, n));
      (u[0] as int % 0x10) * 0x100 + u[1] as int == d &&
      (u[0] / 0x10 == 0 <==> n >= 0x12) &&
      (n >= 0x12 ==> u[2] as int + 0x12 == n) &&
      (n < 0x12 ==> u[0] / 0x10 + 2 == n)
  {
    var hi := d / 0x100;
    assert hi < 0x10;
    if n < 0x12 {
      var b1 := (n - 2) * 0x10 + hi;
      assert b1 / 0x10 == n - 2 && b1 % 0x10 == hi;
    }
  }

  /** Token t is written at s in src, and playing it onto `out` stays within
    * the cap bytes of dst. */
  predicate TokenAt(src: seq<byte>, cap: nat, s: nat, out: seq<byte>, t: Token)
  {
    WellFormed(t) && s + |Units(t)| <= |src| && src[s..s + |Units(t)|] == Units(t) &&
    Play(out, t).Some? && |Play(out, t).value| <= cap
  }

  /** One token, its control bit given. */
  lemma ConsumeToken(src: seq<byte>, cap: nat, s: nat, out: seq<byte>, t: Token, code: byte, bits: nat)
    requires TokenAt(src, cap, s, out, t) && 1 <= bits <= 8 && (code >= 0x80 <==> t.Lit?)
    ensures Consume(src, cap, DState(s, out, code, bits)) == Some(DState(s + |Units(t)|, Play(out, t).value, Wrap8(code as int * 2), bits - 1))
  {
    var u := Units(t);
    assert forall k :: 0 <= k < |u| ==> src[s + k] == u[k] by {
      forall k | 0 <= k < |u| ensures src[s + k] == u[k] {
        assert src[s..s + |u|][k] == src[s + k];
      }
    }
    if t.Ref? {
      ConsumeRunToken(src, cap, s, out, t, code, bits);
    }
  }

  lemma ConsumeRunToken(src: seq<byte>, cap: nat, s: nat, out: seq<byte>, t: Token, code: byte, bits: nat)
    requires TokenAt(src, cap, s, out, t) && 1 <= bits <= 8 && t.Ref?
    requires forall k :: 0 <= k < |Units(t)| ==> src[s + k] == Units(t)[k]
    ensures ConsumeRun(src, cap, DState(s, out, code, bits)) == Some(DState(s + |Units(t)|, Play(out, t).value, Wrap8(code as int * 2), bits - 1))
  {
    RefUnits(t.dist, t.len);
    var u := Units(t);
    assert src[s] == u[0] && src[s + 1] == u[1];
    assert t.len >= 0x12 ==> src[s + 2] == u[2];
  }

  /** A window of src that spells a + b spells a, then b. */
  lemma SliceSplit(src: seq<byte>, s: nat, a: seq<byte>, b: seq<byte>)
    requires s + |a| + |b| <= |src| && src[s..s + |a| + |b|] == a + b
    ensures src[s..s + |a|] == a && src[s + |a|..s + |a| + |b|] == b
  {
    assert src[s..s + |a|] == src[s..s + |a| + |b|][..|a|];
    assert src[s + |a|..s + |a| + |b|] == src[s..s + |a| + |b|][|a|..];
  }

  /** The units of g lie in src from s to s', and playing g onto `out` stays
    * within the cap bytes of dst and gives `mid`: one token at a time. */
  predicate GroupDecodes(src: seq<byte>, cap: nat, s: nat, out: seq<byte>, g: seq<Token>, s': nat, mid: seq<byte>)
    decreases |g|
  {
    if g == [] then s == s' && out == mid
    else
      TokenAt(src, cap, s, out, g[0]) &&
      GroupDecodes(src, cap, s + |Units(g[0])|, Play(out, g[0]).value, g[1..], s', mid)
  }

  lemma {:induction false} GroupDecodesGrows(src: seq<byte>, cap: nat, s: nat, out: seq<byte>, g: seq<Token>, s': nat, mid: seq<byte>)
    requires GroupDecodes(src, cap, s, out, g, s', mid)
    ensures |mid| >= |out| + |g|
    decreases |g|
  {
    if g != [] {
      assert TokenAt(src, cap, s, out, g[0]);
      GroupDecodesGrows(src, cap, s + |Units(g[0])|, Play(out, g[0]).value, g[1..], s', mid);
    }
  }

  /** The window and expansion facts about a group, token by token. */
  lemma {:induction false} GroupDecodesOf(src: seq<byte>, cap: nat, s: nat, out: seq<byte>, g: seq<Token>, s': nat, mid: seq<byte>)
    requires AllWellFormed(g) && s' == s + |UnitsOf(g)|
    requires s' <= |src| && src[s..s'] == UnitsOf(g)
    requires Expand(out, g) == Some(mid) && |mid| <= cap
    ensures GroupDecodes(src, cap, s, out, g, s', mid)
    decreases |g|
  {
    if g != [] {
      GroupHead(src, cap, s, out, g, s', mid);
      GroupDecodesOf(src, cap, s + |Units(g[0])|, Play(out, g[0]).value, g[1..], s', mid);
    }
  }

  /** The first token of a group lies at s, and the rest follows it. */
  lemma GroupHead(src: seq<byte>, cap: nat, s: nat, out: seq<byte>, g: seq<Token>, s': nat, mid: seq<byte>)
    requires g != [] && AllWellFormed(g) && s' == s + |UnitsOf(g)|
    requires s' <= |src| && src[s..s'] == UnitsOf(g)
    requires Expand(out, g) == Some(mid) && |mid| <= cap
    ensures TokenAt(src, cap, s, out, g[0]) && AllWellFormed(g[1..])
    ensures s' == s + |Units(g[0])| + |UnitsOf(g[1..])| && src[s + |Units(g[0])|..s'] == UnitsOf(g[1..])
    ensures Expand(Play(out, g[0]).value, g[1..]) == Some(mid)
  {
    var t, rest := g[0], g[1..];
    assert WellFormed(t);
    AllWellFormedSlice(g, 1, |g|);
    var u := Units(t);
    assert UnitsOf(g) == u + UnitsOf(rest);
    SliceSplit(src, s, u, UnitsOf(rest));
    assert Play(out, t).Some?;
  }

  /** The first token of a group, its control bit on top of the code byte. */
  lemma StepFirst(src: seq<byte>, cap: nat, s: nat, out: seq<byte>, g: seq<Token>, bits: nat,
                  s1: nat, next: seq<byte>, g1: seq<Token>, b1: nat)
    requires 1 <= |g| <= bits <= 8 && TokenAt(src, cap, s, out, g[0])
    requires s1 == s + |Units(g[0])| && next == Play(out, g[0]).value && g1 == g[1..] && b1 == bits - 1
    ensures Step(src, cap, DState(s, out, PackW(Flags(g), 0), bits)) == Some(DState(s1, next, PackW(Flags(g1), 0), b1))
  {
    var f := Flags(g);
    assert f[1..] == Flags(g[1..]);
    PackTop(f);
    PackShift(f);
    ConsumeToken(src, cap, s, out, g[0], PackW(f, 0), bits);
  }

  /** The loop's pass over the first token of a group. */
  lemma InflateFirst(src: seq<byte>, size: nat, cap: nat, s: nat, out: seq<byte>, g: seq<Token>, bits: nat,
                     s1: nat, next: seq<byte>, g1: seq<Token>, b1: nat)
    requires 1 <= |g| <= bits <= 8 && TokenAt(src, cap, s, out, g[0]) && |out| < size
    requires s1 == s + |Units(g[0])| && next == Play(out, g[0]).value && g1 == g[1..] && b1 == bits - 1
    ensures Inflate(src, size, cap, DState(s, out, PackW(Flags(g), 0), bits)) ==
            Inflate(src, size, cap, DState(s1, next, PackW(Flags(g1), 0), b1))
  {
    StepFirst(src, cap, s, out, g, bits, s1, next, g1, b1);
    InflateStep(src, size, cap, DState(s, out, PackW(Flags(g), 0), bits), DState(s1, next, PackW(Flags(g1), 0), b1));
  }

  /** decodeYaz0 over the units of a group whose flags sit on top of the code
    * byte writes the group's expansion and uses up |g| bits. */
  lemma {:induction false} InflateGroup(src: seq<byte>, size: nat, cap: nat, s: nat, out: seq<byte>, g: seq<Token>, bits: nat, mid: seq<byte>, s': nat, bits': nat)
    requires |g| <= bits <= 8 && bits' + |g| == bits
    requires GroupDecodes(src, cap, s, out, g, s', mid) && |mid| <= size
    ensures Inflate(src, size, cap, DState(s, out, PackW(Flags(g), 0), bits)) == Inflate(src, size, cap, DState(s', mid, 0, bits'))
    decreases |g|
  {
    if g != [] {
      var s1, next, g1, b1 := s + |Units(g[0])|, Play(out, g[0]).value, g[1..], bits - 1;
      assert TokenAt(src, cap, s, out, g[0]);
      assert GroupDecodes(src, cap, s1, next, g1, s', mid);
      GroupDecodesGrows(src, cap, s1, next, g1, s', mid);
      assert |out| < |next| <= |mid|;
      InflateFirst(src, size, cap, s, out, g, bits, s1, next, g1, b1);
      InflateGroup(src, size, cap, s1, next, g1, b1, mid, s', bits');
    } else {
      assert PackW(Flags(g), 0) == 0;
    }
  }

  /** One pass of the loop while dst is short of `size`. */
  lemma InflateStep(src: seq<byte>, size: nat, cap: nat, st: DState, st': DState)
    requires st.bits <= 8 && |st.out| < size && Step(src, cap, st) == Some(st')
    ensures Inflate(src, size, cap, st) == Inflate(src, size, cap, st')
  {
  }

  /** With no bits left, the loop fetches the next control byte. */
  lemma InflateFetch(src: seq<byte>, size: nat, cap: nat, s: nat, out: seq<byte>, code: byte, s1: nat, c: byte)
    requires s < |src| && |out| < size && s1 == s + 1 && c == src[s]
    ensures Inflate(src, size, cap, DState(s, out, code, 0)) == Inflate(src, size, cap, DState(s1, out, c, 8))
  {
  }

  /** The first group of a nonempty token list and the tokens after it. */
  lemma BodySplit(ts: seq<Token>) returns (g: seq<Token>, rest: seq<Token>)
    requires AllWellFormed(ts) && ts != []
    ensures 1 <= |g| <= 8 && ts == g + rest && (rest != [] ==> |g| == 8)
    ensures AllWellFormed(g) && AllWellFormed(rest) && |rest| < |ts|
    ensures Body(ts) == [PackW(Flags(g), 0)] + UnitsOf(g) + Body(rest)
  {
    var n := if |ts| <= 8 then |ts| else 8;
    g, rest := ts[..n], ts[n..];
    assert ts == g + rest;
    AllWellFormedSlice(ts, 0, n);
    AllWellFormedSlice(ts, n, |ts|);
    if |ts| <= 8 {
      assert g == ts;
    }
  }

  /** Expanding g + rest is expanding g, then rest. */
  lemma ExpandSplit(out: seq<byte>, ts: seq<Token>, g: seq<Token>, rest: seq<Token>, full: seq<byte>) returns (mid: seq<byte>)
    requires ts == g + rest && g != [] && AllWellFormed(g) && AllWellFormed(rest)
    requires Expand(out, ts) == Some(full)
    ensures Expand(out, g) == Some(mid) && Expand(mid, rest) == Some(full)
    ensures |out| < |mid| <= |full|
  {
    ExpandAppend(out, g, rest);
    mid := Expand(out, g).value;
    ExpandGrows(out, g);
    ExpandGrows(mid, rest);
  }

  /** A window of src that spells [c] + u + b, cut into its three parts. */
  lemma Windows(src: seq<byte>, s: nat, c: byte, u: seq<byte>, b: seq<byte>, s1: nat, s2: nat, e: nat)
    requires s1 == s + 1 && s2 == s1 + |u| && e == s2 + |b|
    requires e <= |src| && src[s..e] == [c] + u + b
    ensures src[s] == c && src[s1..s2] == u && src[s2..e] == b
  {
    SliceSplit(src, s, [c] + u, b);
    SliceSplit(src, s, [c], u);
    assert src[s] == src[s..s1][0];
  }

  /** Where the first group's control byte, units and the rest of the body lie in src. */
  lemma BodyHead(src: seq<byte>, s: nat, out: seq<byte>, ts: seq<Token>, e: nat, full: seq<byte>)
    returns (g: seq<Token>, rest: seq<Token>, mid: seq<byte>, s1: nat, s2: nat)
    requires AllWellFormed(ts) && ts != [] && e == s + |Body(ts)|
    requires e <= |src| && src[s..e] == Body(ts)
    requires Expand(out, ts) == Some(full)
    ensures 1 <= |g| <= 8 && AllWellFormed(g) && AllWellFormed(rest) && |rest| < |ts|
    ensures rest != [] ==> |g| == 8
    ensures s1 == s + 1 && s2 == s1 + |UnitsOf(g)| && e == s2 + |Body(rest)|
    ensures src[s] == PackW(Flags(g), 0)
    ensures s2 <= |src| && src[s1..s2] == UnitsOf(g)
    ensures e <= |src| && src[s2..e] == Body(rest)
    ensures Expand(out, g) == Some(mid) && Expand(mid, rest) == Some(full)
    ensures |out| < |mid| <= |full|
  {
    g, rest := BodySplit(ts);
    mid := ExpandSplit(out, ts, g, rest, full);
    var c, u, b := PackW(Flags(g), 0), UnitsOf(g), Body(rest);
    s1, s2 := s + 1, s + 1 + |u|;
    Windows(src, s, c, u, b, s1, s2, e);
  }

  /** decodeYaz0 over Body(ts), entered with no bits left, writes the expansion
    * of ts and stops at the end `e` of Body. */
  lemma {:induction false} InflateBody(src: seq<byte>, size: nat, cap: nat, s: nat, out: seq<byte>, code: byte, ts: seq<Token>, e: nat, full: seq<byte>)
    requires AllWellFormed(ts) && e == s + |Body(ts)|
    requires e <= |src| && src[s..e] == Body(ts)
    requires Expand(out, ts) == Some(full) && |full| == size && size <= cap
    ensures Inflate(src, size, cap, DState(s, out, code, 0)) == Inflated(e, full)
    decreases |ts|
  {
    if ts == [] {
      assert full == out;
    } else {
      var g, rest, mid, s1, s2 := BodyHead(src, s, out, ts, e, full);
      var b2, c := 8 - |g|, src[s];
      InflateFetch(src, size, cap, s, out, code, s1, c);
      GroupDecodesOf(src, cap, s1, out, g, s2, mid);
      InflateGroup(src, size, cap, s1, out, g, 8, mid, s2, b2);
      if rest != [] {
        assert b2 == 0;
        InflateBody(src, size, cap, s2, mid, 0, rest, e, full);
      } else {
        assert mid == full;
      }
    }
  }

  /** decodeYaz0 never reports having read past the end of src. */
  lemma {:induction false} InflateWithin(src: seq<byte>, size: nat, cap: nat, st: DState)
    requires st.bits <= 8 && st.s <= |src|
    ensures Inflate(src, size, cap, st).Inflated? ==> Inflate(src, size, cap, st).srcPos <= |src|
    decreases size - |st.out|
  {
    if |st.out| < size {
      var next := Step(src, cap, st);
      if next.Some? {
        var st' := next.value;
        assert st'.s <= |src|;
        InflateWithin(src, size, cap, st');
      }
    }
  }

  // ---------------------------------------------------------------------------
  // decode(vector)

  const Magic: seq<byte> := [0x59, 0x61, 0x7A, 0x30]

  /** util::read(src, i, 4) == "Yaz0". */
  predicate AtMagic(src: seq<byte>, i: nat)
  {
    i + 4 <= |src| && src[i..i + 4] == Magic
  }

  /** The search loop: from `from` on, the first position with the magic, or
    * the first one with fewer than four bytes after it. */
  function FindMagic(src: seq<byte>, from: nat): (r: nat)
    ensures from <= r
    ensures r + 3 < |src| ==> AtMagic(src, r)
    ensures r + 3 >= |src| ==> r == from || r + 3 == |src|
    ensures forall i :: from <= i < r ==> i + 3 < |src| && !AtMagic(src, i)
    decreases |src| - from
  {
    if from + 3 < |src| && !AtMagic(src, from) then FindMagic(src, from + 1) else from
  }

  function Join(a: seq<byte>, b: Option<seq<byte>>): Option<seq<byte>>
  {
    match b
    case None => None
    case Some(more) => Some(a + more)
  }

  /** The block whose magic is at m: Size read big-endian after the magic,
    * decodeYaz0 run from 16 bytes past m into a dst of Size + 0x1000 bytes
    * (a uint32_t sum). */
  function Block(src: seq<byte>, m: nat): (r: Inflated)
    requires m + 3 < |src|
    ensures r.Inflated? ==> m + 16 + r.srcPos <= |src| + 12
  {
    var size, start := Util.ReadBe(src, m + 4, 4), m + 16;
    var window := if start <= |src| then src[start..] else [];
    var cap := Wrap32(size + 0x1000);
    InflateWithin(window, size, cap, DState(0, [], 0, 0));
    Inflate(window, size, cap, DState(0, [], 0, 0))
  }

  /** decode(vector) from readBytes = pos on: the bytes of every block found,
    * one after the other. None when a block aborts. */
  function DecodeFrom(src: seq<byte>, pos: nat): (r: Option<seq<byte>>)
    requires pos <= |src| + 12
    decreases |src| + 12 - pos, 1
  {
    if pos >= |src| then Some([])
    else
      var m := FindMagic(src, pos);
      if m + 3 >= |src| then Some([]) else After(src, m, Block(src, m))
  }

  /** The output of the block at m, which decoded to b, and of the blocks after
    * it: the cursor moves past the header and the srcPos bytes decodeYaz0 consumed. */
  function After(src: seq<byte>, m: nat, b: Inflated): (r: Option<seq<byte>>)
    requires m + 3 < |src| && (b.Inflated? ==> m + 16 + b.srcPos <= |src| + 12)
    decreases |src| + 12 - (m + 16), 2
  {
    match b
    case Abort => None
    case Inflated(used, out) => Join(out, DecodeFrom(src, m + 16 + used))
  }

  lemma JoinNil(b: Option<seq<byte>>)
    ensures Join([], b) == b
  {
    if b.Some? {
      assert [] + b.value == b.value;
    }
  }

  /** The push_back loop: ret followed by the first n bytes of buf. */
  method AppendBytes(ret: seq<byte>, buf: array<byte>, n: nat) returns (r: seq<byte>)
    requires n <= buf.Length
    ensures r == ret + buf[..n]
  {
    r := ret;
    var i := 0;
    while i < n
      invariant i <= n && r == ret + buf[..i]
    {
      assert buf[..i + 1] == buf[..i] + [buf[i]];
      r := r + [buf[i]];
      i := i + 1;
    }
  }

  /** util::read compares equal to "Yaz0" exactly at the magic bytes. */
  lemma MagicText(src: seq<byte>, i: nat)
    requires i + 4 <= |src|
    ensures Util.ReadText(src, i, 4) == Some("Yaz0") <==> AtMagic(src, i)
  {
    var tag := "Yaz0";
    Util.ReadTextTag(src, i, tag);
    assert Chars(Magic) == tag;
    if Chars(src[i..i + 4]) == tag {
      CharsInjective(src[i..i + 4], Magic);
    }
  }

  /** The search loop of decode. */
  method SeekMagic(src: seq<byte>, from: nat) returns (i: nat)
    ensures i == FindMagic(src, from)
  {
    i := from;
    ghost var want := FindMagic(src, from);
    while i + 3 < |src| && Util.ReadText(src, i, 4) != Some("Yaz0")
      invariant from <= i && (i > |src| ==> i == from)
      invariant FindMagic(src, i) == want
      decreases |src| - i
    {
      MagicText(src, i);
      i := i + 1;
    }
    if i + 3 < |src| {
      MagicText(src, i);
    }
  }

  /** One block of decode: header, dst allocation, decodeYaz0 and the copy
    * of what it wrote onto ret; the new cursor and ret, or None on abort. */
  method DecodeBlock(src: seq<byte>, m: nat, ret: seq<byte>)
    returns (r: Option<(nat, seq<byte>)>, ghost used: nat, ghost out: seq<byte>)
    requires m + 3 < |src| && |src| + 16 <= 0x1_0000_0000
    ensures r.None? <==> Block(src, m).Abort?
    ensures r.Some? ==> Block(src, m) == Inflated(used, out) && r.value == (m + 16 + used, ret + out)
  {
    var readBytes := m + 4;
    var size := Util.ReadBig(src, readBytes, 4);
    var dst := new byte[Wrap32(size + 0x1000)];
    readBytes := readBytes + 12;
    var window := if readBytes <= |src| then src[readBytes..] else [];
    var res := DecodeYaz0(window, dst, size);
    if res.None? {
      return None, 0, [];
    }
    used, out := res.value.srcPos, dst[..res.value.dstPos];
    var next := AppendBytes(ret, dst, res.value.dstPos);
    return Some((readBytes + res.value.srcPos, next)), used, out;
  }

  /** One pass of decode's outer loop. */
  lemma {:induction false} DecodeFromStep(src: seq<byte>, pos: nat, m: nat, used: nat, out: seq<byte>, next: nat)
    requires pos < |src| && m == FindMagic(src, pos) && m + 3 < |src|
    requires Block(src, m) == Inflated(used, out) && next == m + 16 + used
    ensures next <= |src| + 12 && DecodeFrom(src, pos) == Join(out, DecodeFrom(src, next))
  {
    var b := Block(src, m);
    assert DecodeFrom(src, pos) == After(src, m, b);
  }

  /** Appending to the accumulated output in two steps or one. */
  lemma JoinJoin(a: seq<byte>, b: seq<byte>, c: Option<seq<byte>>)
    ensures Join(a, Join(b, c)) == Join(a + b, c)
  {
    if c.Some? {
      assert a + (b + c.value) == a + b + c.value;
    }
  }

  /** decode(std::vector<uint8_t>&). The cursor is a uint32_t; inputs are
    * taken short enough that it never wraps. */
  method Decode(src: seq<byte>) returns (r: Option<seq<byte>>)
    requires |src| + 16 <= 0x1_0000_0000
    ensures r == DecodeFrom(src, 0)
  {
    var ret: seq<byte> := [];
    var readBytes: nat := 0;
    ghost var want := DecodeFrom(src, 0);
    JoinNil(want);
    while readBytes < |src|
      invariant readBytes <= |src| + 12
      invariant want == Join(ret, DecodeFrom(src, readBytes))
      decreases |src| + 12 - readBytes
    {
      var m := SeekMagic(src, readBytes);
      if m + 3 >= |src| {
        break;
      }
      var block, used, out := DecodeBlock(src, m, ret);
      if block.None? {
        return None;
      }
      var next := block.value.0;
      DecodeFromStep(src, readBytes, m, used, out, next);
      JoinJoin(ret, out, DecodeFrom(src, next));
      readBytes, ret := next, block.value.1;
    }
    assert ret + [] == ret;
    return Some(ret);
  }

  // ---------------------------------------------------------------------------
  // simpleEnc

  /** std::max(0, static_cast<int>(pos - 0x1000)): the oldest start a 12-bit
    * distance reaches (positions stay below 2^31). */
  function WindowStart(pos: nat): (r: nat)
    ensures r <= pos && pos - r <= 0x1000
  {
    if pos >= 0x1000 then pos - 0x1000 else 0
  }

  /** src[a + k] == src[b + k]. */
  predicate Same(src: seq<byte>, a: nat, b: nat, k: nat)
    requires a + k < |src| && b + k < |src|
  {
    src[a + k] == src[b + k]
  }

  /** The inner while loop from j on: how far src from i agrees with src from
    * pos, stopping at the end of src. */
  function Common(src: seq<byte>, i: nat, pos: nat, j: nat): (r: nat)
    requires i < pos <= |src| && j <= |src| - pos
    ensures j <= r <= |src| - pos
    decreases |src| - pos - j
  {
    if j < |src| - pos && src[i + j] == src[pos + j] then Common(src, i, pos, j + 1) else j
  }

  /** src from i agrees with src from pos up to Common, and no further. */
  lemma {:induction false} CommonSame(src: seq<byte>, i: nat, pos: nat, j: nat)
    requires i < pos <= |src| && j <= |src| - pos
    ensures forall k :: j <= k < Common(src, i, pos, j) ==> Same(src, i, pos, k)
    ensures Common(src, i, pos, j) < |src| - pos ==> src[i + Common(src, i, pos, j)] != src[pos + Common(src, i, pos, j)]
    decreases |src| - pos - j
  {
    if j < |src| - pos && src[i + j] == src[pos + j] {
      CommonSame(src, i, pos, j + 1);
    }
  }

  /** The n bytes from pos repeat those from `at`, a start inside the window. */
  predicate MatchAt(src: seq<byte>, pos: nat, at: nat, n: nat)
  {
    WindowStart(pos) <= at < pos && pos + n <= |src| &&
    forall k :: 0 <= k < n ==> Same(src, at, pos, k)
  }

  /** The for loop over the starts i .. pos - 1, given the best length so far
    * and its start: a later start wins only with a strictly longer match. */
  function Longest(src: seq<byte>, pos: nat, i: nat, best: nat, at: nat): (r: (nat, nat))
    requires i <= pos <= |src|
    ensures best <= r.0
    ensures r.0 == best ==> r.1 == at
    ensures r.0 > best ==> i <= r.1 < pos && Common(src, r.1, pos, 0) == r.0
    decreases pos - i
  {
    if i == pos then (best, at)
    else
      var j := Common(src, i, pos, 0);
      if j > best then Longest(src, pos, i + 1, j, i) else Longest(src, pos, i + 1, best, at)
  }

  /** The start Longest settles on matches at least as far as every start
    * from i on. */
  lemma {:induction false} LongestAtLeast(src: seq<byte>, pos: nat, i: nat, best: nat, at: nat)
    requires i <= pos <= |src|
    ensures forall k :: i <= k < pos ==> Common(src, k, pos, 0) <= Longest(src, pos, i, best, at).0
    decreases pos - i
  {
    if i < pos {
      var j := Common(src, i, pos, 0);
      var r := Longest(src, pos, i, best, at);
      if j > best {
        assert r == Longest(src, pos, i + 1, j, i);
        LongestAtLeast(src, pos, i + 1, j, i);
      } else {
        assert r == Longest(src, pos, i + 1, best, at);
        LongestAtLeast(src, pos, i + 1, best, at);
      }
      forall k | i <= k < pos
        ensures Common(src, k, pos, 0) <= r.0
      {
        if k == i {
          assert Common(src, k, pos, 0) == j;
        }
      }
    }
  }

  /** ... and strictly further than every start before it: the first of the
    * longest matches wins. */
  lemma {:induction false} LongestFirst(src: seq<byte>, pos: nat, i: nat, best: nat, at: nat)
    requires i <= pos <= |src|
    ensures var r := Longest(src, pos, i, best, at);
      r.0 > best ==> forall k :: i <= k < r.1 ==> Common(src, k, pos, 0) < r.0
    decreases pos - i
  {
    if i < pos {
      var j := Common(src, i, pos, 0);
      var r := Longest(src, pos, i, best, at);
      if j > best {
        assert r == Longest(src, pos, i + 1, j, i);
        LongestFirst(src, pos, i + 1, j, i);
        assert r.0 == j ==> r.1 == i;
      } else {
        assert r == Longest(src, pos, i + 1, best, at);
        LongestFirst(src, pos, i + 1, best, at);
      }
      if r.0 > best {
        forall k | i <= k < r.1
          ensures Common(src, k, pos, 0) < r.0
        {
          if k == i {
            assert Common(src, k, pos, 0) == j;
          }
        }
      }
    }
  }

  /** simpleEnc(src, size, pos, outPos) with size = |src|: the length of the
    * first longest match inside the window, 2 reported as 1, and its start;
    * outPos keeps its value when no start matches more than one byte. */
  function SimpleEncResult(src: seq<byte>, pos: nat, outPos: nat): (r: (nat, nat))
    requires pos <= |src|
    ensures r.0 == 1 || (3 <= r.0 && MatchAt(src, pos, r.1, r.0))
  {
    var best := Longest(src, pos, WindowStart(pos), 1, outPos);
    var r := (if best.0 == 2 then 1 else best.0, best.1);
    assert r.0 >= 3 ==> MatchAt(src, pos, r.1, r.0) by {
      if best.0 > 1 {
        CommonSame(src, best.1, pos, 0);
      }
    }
    r
  }

  /** simpleEnc finds the first longest match in the window: no start matches
    * further, and every earlier start matches less. */
  lemma SimpleEncLongest(src: seq<byte>, pos: nat, outPos: nat)
    requires pos <= |src|
    ensures var r := SimpleEncResult(src, pos, outPos);
      (r.0 >= 3 ==> forall k :: WindowStart(pos) <= k < r.1 ==> Common(src, k, pos, 0) < r.0) &&
      (forall k :: WindowStart(pos) <= k < pos ==> Common(src, k, pos, 0) <= (if r.0 == 1 then 2 else r.0))
  {
    LongestAtLeast(src, pos, WindowStart(pos), 1, outPos);
    LongestFirst(src, pos, WindowStart(pos), 1, outPos);
  }

  /** The inner while loop of simpleEnc, with diff = size - pos. */
  method MatchLength(src: seq<byte>, i: nat, pos: nat) returns (j: nat)
    requires i < pos <= |src|
    ensures j == Common(src, i, pos, 0)
  {
    j := 0;
    ghost var want := Common(src, i, pos, 0);
    while j < |src| - pos && src[i + j] == src[j + pos]
      invariant j <= |src| - pos
      invariant Common(src, i, pos, j) == want
    {
      j := j + 1;
    }
  }

  method SimpleEnc(src: seq<byte>, pos: nat, outPos: nat) returns (numBytes: nat, outPos': nat)
    requires pos <= |src|
    ensures (numBytes, outPos') == SimpleEncResult(src, pos, outPos)
  {
    numBytes, outPos' := 1, outPos;
    var startPos := WindowStart(pos);
    var i := startPos;
    ghost var want := Longest(src, pos, startPos, 1, outPos);
    while i < pos
      invariant startPos <= i <= pos
      invariant Longest(src, pos, i, numBytes, outPos') == want
    {
      var j := MatchLength(src, i, pos);
      if j > numBytes {
        numBytes, outPos' := j, i;
      }
      i := i + 1;
    }
    if numBytes == 2 {
      numBytes := 1;
    }
  }

  // ---------------------------------------------------------------------------
  // Encoder::nintendoEnc

  /** The encoder's fields: prevFlag (0 or 1), matchPos and numBytes1. */
  datatype Look = Look(prevFlag: bool, matchPos: nat, numBytes1: nat)

  /** What nintendoEnc returns (the length and *pMatchPos) and leaves behind. */
  datatype Choice = Choice(numBytes: nat, matchPos: nat, next: Look)

  /** A pending look-ahead match is a match at pos. */
  predicate Ready(src: seq<byte>, pos: nat, st: Look)
  {
    st.prevFlag ==> 3 <= st.numBytes1 && MatchAt(src, pos, st.matchPos, st.numBytes1)
  }

  /** nintendoEnc: a pending look-ahead match is returned as it stands;
    * otherwise simpleEnc at pos, and when that finds a run, simpleEnc at
    * pos + 1: a run there at least 2 longer makes pos a literal and is kept
    * for the next call. */
  function Choose(src: seq<byte>, pos: nat, st: Look): (r: Choice)
    requires pos < |src|
    ensures Ready(src, pos, st) ==> r.numBytes == 1 || (3 <= r.numBytes && MatchAt(src, pos, r.matchPos, r.numBytes))
    ensures Ready(src, pos, st) ==> Ready(src, pos + 1, r.next)
    ensures r.next.prevFlag ==> r.numBytes == 1 && !st.prevFlag
  {
    if st.prevFlag then Choice(st.numBytes1, st.matchPos, Look(false, st.matchPos, st.numBytes1))
    else
      var first := SimpleEncResult(src, pos, st.matchPos);
      if first.0 >= 3 then
        var second := SimpleEncResult(src, pos + 1, first.1);
        if second.0 >= first.0 + 2 then Choice(1, first.1, Look(true, second.1, second.0))
        else Choice(first.0, first.1, Look(false, second.1, second.0))
      else Choice(first.0, first.1, Look(false, first.1, st.numBytes1))
  }

  class Encoder {
    var prevFlag: bool
    var matchPos: nat
    var numBytes1: nat

    function State(): Look
      reads this
    {
      Look(prevFlag, matchPos, numBytes1)
    }

    constructor ()
      ensures State() == Look(false, 0, 0)
    {
      prevFlag, matchPos, numBytes1 := false, 0, 0;
    }

    method NintendoEnc(src: seq<byte>, pos: nat) returns (numBytes: nat, pMatchPos: nat)
      requires pos < |src|
      modifies this
      ensures Choice(numBytes, pMatchPos, State()) == Choose(src, pos, old(State()))
    {
      if prevFlag {
        pMatchPos := matchPos;
        prevFlag := false;
        return numBytes1, pMatchPos;
      }
      prevFlag := false;
      numBytes, matchPos := SimpleEnc(src, pos, matchPos);
      pMatchPos := matchPos;
      if numBytes >= 3 {
        numBytes1, matchPos := SimpleEnc(src, pos + 1, matchPos);
        if numBytes1 >= numBytes + 2 {
          numBytes := 1;
          prevFlag := true;
        }
      }
    }
  }

  // ---------------------------------------------------------------------------
  // encode

  /** The token encode writes for nintendoEnc's answer at pos: a literal
    * below 3, otherwise a run from distance pos - matchPos - 1 whose length
    * is capped at 0xff + 0x12. */
  function Emit(src: seq<byte>, pos: nat, numBytes: nat, matchPos: nat): (t: Token)
    requires pos < |src| && (numBytes >= 3 ==> matchPos < pos)
  {
    if numBytes < 3 then Lit(src[pos])
    else Ref(pos - matchPos - 1, if numBytes > 0xff + 0x12 then 0xff + 0x12 else numBytes)
  }

  /** How far r.srcPos moves for a token. */
  function Advance(t: Token): nat
  {
    if t.Lit? then 1 else t.len
  }

  /** The token encode emits at pos, where the cursor moves, and the
    * encoder's fields after it. */
  function NextToken(src: seq<byte>, pos: nat, st: Look): (r: (Token, nat, Look))
    requires pos < |src| && Ready(src, pos, st)
    ensures pos < r.1 <= |src| && Ready(src, r.1, r.2)
  {
    var c := Choose(src, pos, st);
    var t := Emit(src, pos, c.numBytes, c.matchPos);
    (t, pos + Advance(t), c.next)
  }

  /** The token sequence encode emits from pos on, the encoder's fields being st. */
  function EncodeTokens(src: seq<byte>, pos: nat, st: Look): (r: seq<Token>)
    requires pos <= |src| && Ready(src, pos, st)
    decreases |src| - pos
  {
    if pos == |src| then []
    else
      var n := NextToken(src, pos, st);
      [n.0] + EncodeTokens(src, n.1, n.2)
  }

  /** A run copied from `at` reproduces src when src from `at` repeats
    * itself from p on. */
  lemma {:induction false} CopyRunRepeat(src: seq<byte>, at: nat, p: nat, n: nat)
    requires at < p && p + n <= |src|
    requires forall k :: 0 <= k < n ==> Same(src, at, p, k)
    ensures CopyRun(src[..p], at, n) == src[..p + n]
    decreases n
  {
    if n > 0 {
      assert Same(src, at, p, 0);
      assert src[..p] + [src[..p][at]] == src[..p + 1];
      var at1, p1 := at + 1, p + 1;
      forall k | 0 <= k < n - 1
        ensures Same(src, at1, p1, k)
      {
        assert Same(src, at, p, k + 1);
      }
      CopyRunRepeat(src, at1, p1, n - 1);
    }
  }

  /** The token emitted for a sound answer is well formed and, played after
    * src[..pos], gives src up to where the cursor moves. */
  lemma {:induction false} EmitSound(src: seq<byte>, pos: nat, numBytes: nat, matchPos: nat, t: Token, pos': nat)
    requires pos < |src| && (numBytes < 3 || MatchAt(src, pos, matchPos, numBytes))
    requires t == Emit(src, pos, numBytes, matchPos) && pos' == pos + Advance(t)
    ensures WellFormed(t) && pos' <= |src| && Play(src[..pos], t) == Some(src[..pos'])
  {
    if numBytes < 3 {
      assert src[..pos] + [src[pos]] == src[..pos + 1];
    } else {
      CopyRunRepeat(src, matchPos, pos, t.len);
    }
  }

  /** Expanding a token in front of more tokens. */
  lemma ExpandCons(out: seq<byte>, t: Token, rest: seq<Token>, next: seq<byte>)
    requires Play(out, t) == Some(next)
    ensures Expand(out, [t] + rest) == Expand(next, rest)
  {
    assert ([t] + rest)[0] == t && ([t] + rest)[1..] == rest;
  }

  lemma AllWellFormedCons(t: Token, rest: seq<Token>)
    requires WellFormed(t) && AllWellFormed(rest)
    ensures AllWellFormed([t] + rest)
  {
    forall i | 0 <= i < |rest| + 1
      ensures WellFormed(([t] + rest)[i])
    {
      if i > 0 {
        assert ([t] + rest)[i] == rest[i - 1];
      }
    }
  }

  /** One step of EncodeTokens. */
  lemma {:induction false} EncodeTokensStep(src: seq<byte>, pos: nat, st: Look, c: Choice, t: Token, pos': nat)
    requires pos < |src| && Ready(src, pos, st) && c == Choose(src, pos, st)
    requires t == Emit(src, pos, c.numBytes, c.matchPos) && pos' == pos + Advance(t) && pos' <= |src|
    ensures Ready(src, pos', c.next)
    ensures EncodeTokens(src, pos, st) == [t] + EncodeTokens(src, pos', c.next)
  {
    assert NextToken(src, pos, st) == (t, pos', c.next);
  }

  /** The first token encode emits at pos and the state after it. */
  lemma {:induction false} EncodeTokensHead(src: seq<byte>, pos: nat, st: Look) returns (t: Token, pos': nat, st': Look)
    requires pos < |src| && Ready(src, pos, st)
    ensures pos < pos' <= |src| && Ready(src, pos', st') && WellFormed(t)
    ensures Play(src[..pos], t) == Some(src[..pos'])
    ensures EncodeTokens(src, pos, st) == [t] + EncodeTokens(src, pos', st')
  {
    var c := Choose(src, pos, st);
    t := Emit(src, pos, c.numBytes, c.matchPos);
    pos', st' := pos + Advance(t), c.next;
    EmitSound(src, pos, c.numBytes, c.matchPos, t, pos');
    EncodeTokensStep(src, pos, st, c, t, pos');
  }

  /** The tokens encode emits are well formed and expand to the whole input. */
  lemma {:induction false} EncodeTokensExpand(src: seq<byte>, pos: nat, st: Look)
    requires pos <= |src| && Ready(src, pos, st)
    ensures AllWellFormed(EncodeTokens(src, pos, st))
    ensures Expand(src[..pos], EncodeTokens(src, pos, st)) == Some(src)
    decreases |src| - pos
  {
    if pos < |src| {
      var t, pos', st' := EncodeTokensHead(src, pos, st);
      var rest := EncodeTokens(src, pos', st');
      EncodeTokensExpand(src, pos', st');
      ExpandCons(src[..pos], t, rest, src[..pos']);
      AllWellFormedCons(t, rest);
    } else {
      assert src[..pos] == src;
    }
  }

  const Start := Look(false, 0, 0)

  /** The 16 bytes encode writes first: the magic, the input size big-endian,
    * 8 zero bytes. */
  function Header(n: nat): (r: seq<byte>)
  {
    Magic + ToBE(n, 4) + [0, 0, 0, 0, 0, 0, 0, 0]
  }

  /** What encode(src) returns: the header and the groups of its tokens. */
  function Encoded(src: seq<byte>): (r: seq<byte>)
  {
    var ts := EncodeTokens(src, 0, Start);
    EncodeTokensExpand(src, 0, Start);
    Header(|src|) + Body(ts)
  }

  lemma {:induction false} FlagsSnoc(ts: seq<Token>, t: Token)
    ensures Flags(ts + [t]) == Flags(ts) + [t.Lit?]
    decreases |ts|
  {
    if ts != [] {
      assert (ts + [t])[1..] == ts[1..] + [t];
      FlagsSnoc(ts[1..], t);
    } else {
      assert ts + [t] == [t];
    }
  }

  lemma {:induction false} UnitsOfSnoc(ts: seq<Token>, t: Token)
    requires AllWellFormed(ts) && WellFormed(t)
    ensures AllWellFormed(ts + [t]) && UnitsOf(ts + [t]) == UnitsOf(ts) + Units(t)
    decreases |ts|
  {
    if ts != [] {
      var rest := ts[1..] + [t];
      assert ts + [t] == [ts[0]] + rest;
      AllWellFormedSlice(ts, 1, |ts|);
      UnitsOfSnoc(ts[1..], t);
      AllWellFormedCons(ts[0], rest);
      assert UnitsOf([ts[0]] + rest) == Units(ts[0]) + UnitsOf(rest) by {
        assert ([ts[0]] + rest)[0] == ts[0] && ([ts[0]] + rest)[1..] == rest;
      }
    } else {
      assert ts + [t] == [t];
      AllWellFormedCons(t, []);
    }
  }

  /** Closing a group after whole groups of eight adds its bytes at the end. */
  lemma {:induction false} BodyAppend(done: seq<Token>, cur: seq<Token>, groups: nat)
    requires AllWellFormed(done) && AllWellFormed(cur)
    requires |done| == 8 * groups && 1 <= |cur| <= 8
    ensures AllWellFormed(done + cur) && Body(done + cur) == Body(done) + Group(cur)
    decreases |done|
  {
    var all := done + cur;
    assert forall i :: 0 <= i < |all| ==> all[i] == if i < |done| then done[i] else cur[i - |done|];
    if done == [] {
      assert all == cur;
    } else {
      assert all[..8] == done[..8] && all[8..] == done[8..] + cur;
      AllWellFormedSlice(done, 8, |done|);
      BodyAppend(done[8..], cur, groups - 1);
    }
  }

  /** 0x80 >> v is the flag bit of unit v. */
  lemma HighBit(v: nat)
    requires v < 8
    ensures 0x80 / Util.Pow2(v) == Util.Pow2(7 - v)
  {
    Pow2Byte();
    Pow2Add(v, 7 - v);
    var p, q := Util.Pow2(v), Util.Pow2(7 - v);
    assert 0x80 == q * p;
  }

  /** The four size bytes encode pushes are the big-endian form of the size. */
  lemma SizeBytes(n: nat)
    ensures ToBE(n, 4) == [n / 0x100_0000 % 0x100, n / 0x1_0000 % 0x100, n / 0x100 % 0x100, n % 0x100]
  {
    var a := n / 0x100;
    var b := a / 0x100;
    var c := b / 0x100;
    assert b == n / 0x1_0000;
    assert c == n / 0x100_0000;
    assert ToBE(n, 4) == ToBE(a, 3) + [n % 0x100];
    assert ToBE(a, 3) == ToBE(b, 2) + [a % 0x100];
    assert ToBE(b, 2) == ToBE(c, 1) + [b % 0x100];
    assert ToBE(c, 1) == [c % 0x100];
  }

  /** The header pushes of encode. */
  method EncodeHeader(n: nat) returns (ret: seq<byte>)
    ensures ret == Header(n)
  {
    ret := [0x59, 0x61, 0x7A, 0x30];
    ret := ret + [n / 0x100_0000 % 0x100, n / 0x1_0000 % 0x100, n / 0x100 % 0x100, n % 0x100];
    SizeBytes(n);
    ghost var head := ret;
    var i := 0;
    while i < 8
      invariant i <= 8 && ret == head + seq(i, _ => 0)
    {
      ret := ret + [0];
      i := i + 1;
    }
  }

  /** A literal: the byte into dst and its flag into the code byte. */
  method EncodeLiteral(src: seq<byte>, dst: array<byte>, srcPos: nat, dstPos: nat, code: byte, v: nat, ghost cur: seq<Token>)
    returns (srcPos': nat, dstPos': nat, code': byte)
    requires srcPos < |src| && v == |cur| < 8 && AllWellFormed(cur) && code == PackW(Flags(cur), 0)
    requires dstPos == |UnitsOf(cur)| && dst.Length == 24 && dst[..dstPos] == UnitsOf(cur)
    modifies dst
    ensures var t := Lit(src[srcPos]);
      srcPos' == srcPos + 1 && AllWellFormed(cur + [t]) && dstPos' == |UnitsOf(cur + [t])| &&
      dst[..dstPos'] == UnitsOf(cur + [t]) && code' == PackW(Flags(cur + [t]), 0)
  {
    ghost var t := Lit(src[srcPos]);
    dst[dstPos] := src[srcPos];
    dstPos', srcPos' := dstPos + 1, srcPos + 1;
    assert dst[..dstPos'] == UnitsOf(cur) + Units(t);
    HighBit(v);
    OrFlag(Flags(cur));
    code' := Bits.OrByte(code, 0x80 / Util.Pow2(v));
    FlagsSnoc(cur, t);
    UnitsOfSnoc(cur, t);
  }

  /** The bytes encode computes for a run: ((n - 2) << 4) | (dist >> 8) or
    * 0 | (dist >> 8), then dist & 0xff, then n - 0x12 for the long form; the
    * shifts and masks are the divisions and remainders below. */
  lemma {:induction false} RunUnits(dist: nat, n: nat)
    requires WellFormed(Ref(dist, n))
    ensures n >= 0x12 ==> Units(Ref(dist, n)) == [Bits.OrByte(0, dist / 0x100), dist % 0x100, n - 0x12]
    ensures n < 0x12 ==> Units(Ref(dist, n)) == [Bits.OrByte((n - 2) * 0x10, dist / 0x100), dist % 0x100]
  {
    if n >= 0x12 {
      LongRunUnits(dist, n);
    } else {
      ShortRunUnits(dist, n);
    }
  }

  lemma LongRunUnits(dist: nat, n: nat)
    requires WellFormed(Ref(dist, n)) && n >= 0x12
    ensures Units(Ref(dist, n)) == [Bits.OrByte(0, dist / 0x100), dist % 0x100, n - 0x12]
  {
    Pow2Byte();
    assert dist / 0x100 < 0x10;
    Bits.OrSplit(0, dist / 0x100, 8, 8);
    assert Bits.OrByte(0, dist / 0x100) == dist / 0x100;
  }

  lemma ShortRunUnits(dist: nat, n: nat)
    requires WellFormed(Ref(dist, n)) && n < 0x12
    ensures Units(Ref(dist, n)) == [Bits.OrByte((n - 2) * 0x10, dist / 0x100), dist % 0x100]
  {
    Pow2Byte();
    Util.Pow2Split(4);
    assert Util.Pow2(4) == 0x10;
    assert dist / 0x100 < 0x10 && (n - 2) * 0x10 < 0x100;
    Bits.OrSplit(n - 2, dist / 0x100, 4, 8);
    assert Bits.OrByte((n - 2) * 0x10, dist / 0x100) == (n - 2) * 0x10 + dist / 0x100;
  }

  /** Adding a run to the current group: its units follow, its flag stays clear. */
  lemma {:induction false} GroupSnocRun(cur: seq<Token>, t: Token)
    requires |cur| < 8 && AllWellFormed(cur) && WellFormed(t) && t.Ref?
    ensures AllWellFormed(cur + [t]) && UnitsOf(cur + [t]) == UnitsOf(cur) + Units(t)
    ensures PackW(Flags(cur + [t]), 0) == PackW(Flags(cur), 0)
  {
    FlagsSnoc(cur, t);
    PackSnoc(Flags(cur), false, 0, 7 - |cur|);
    UnitsOfSnoc(cur, t);
  }

  /** A run: two or three bytes into dst; its flag stays clear. */
  method EncodeRun(src: seq<byte>, dst: array<byte>, srcPos: nat, dstPos: nat, numBytes: nat, matchPos: nat, ghost cur: seq<Token>)
    returns (srcPos': nat, dstPos': nat)
    requires 3 <= numBytes && MatchAt(src, srcPos, matchPos, numBytes)
    requires |cur| < 8 && AllWellFormed(cur)
    requires dstPos == |UnitsOf(cur)| && dst.Length == 24 && dst[..dstPos] == UnitsOf(cur)
    modifies dst
    ensures var t := Emit(src, srcPos, numBytes, matchPos);
      srcPos' == srcPos + Advance(t) && AllWellFormed(cur + [t]) &&
      dstPos' == |UnitsOf(cur + [t])| && dst[..dstPos'] == UnitsOf(cur + [t]) &&
      PackW(Flags(cur + [t]), 0) == PackW(Flags(cur), 0)
  {
    ghost var t := Emit(src, srcPos, numBytes, matchPos);
    ghost var before := dst[..dstPos];
    var dist := srcPos - matchPos - 1;
    var n := numBytes;
    if n >= 0x12 {
      var byte1 := Bits.OrByte(0, dist / 0x100);
      var byte2 := dist % 0x100;
      dst[dstPos] := byte1;
      dst[dstPos + 1] := byte2;
      if n > 0xff + 0x12 {
        n := 0xff + 0x12;
      }
      var byte3 := n - 0x12;
      dst[dstPos + 2] := byte3;
      dstPos' := dstPos + 3;
      assert dst[..dstPos'] == before + [byte1, byte2, byte3];
    } else {
      var byte1 := Bits.OrByte((n - 2) * 0x10, dist / 0x100);
      var byte2 := dist % 0x100;
      dst[dstPos] := byte1;
      dst[dstPos + 1] := byte2;
      dstPos' := dstPos + 2;
      assert dst[..dstPos'] == before + [byte1, byte2];
    }
    srcPos' := srcPos + n;
    RunUnits(dist, n);
    GroupSnocRun(cur, t);
  }

  /** One pass of encode's loop up to the group check: nintendoEnc, then the
    * literal or the run it chose. */
  method EncodeUnit(src: seq<byte>, state: Encoder, dst: array<byte>, srcPos: nat, dstPos: nat, code: byte, v: nat, ghost cur: seq<Token>)
    returns (srcPos': nat, dstPos': nat, code': byte, ghost t: Token)
    requires srcPos < |src| && Ready(src, srcPos, state.State())
    requires v == |cur| < 8 && AllWellFormed(cur) && code == PackW(Flags(cur), 0)
    requires dstPos == |UnitsOf(cur)| && dst.Length == 24 && dst[..dstPos] == UnitsOf(cur)
    modifies state, dst
    ensures srcPos < srcPos' <= |src| && Ready(src, srcPos', state.State())
    ensures EncodeTokens(src, srcPos, old(state.State())) == [t] + EncodeTokens(src, srcPos', state.State())
    ensures AllWellFormed(cur + [t]) && code' == PackW(Flags(cur + [t]), 0)
    ensures dstPos' == |UnitsOf(cur + [t])| && dst[..dstPos'] == UnitsOf(cur + [t])
  {
    ghost var st := state.State();
    var numBytes, matchPos := state.NintendoEnc(src, srcPos);
    t := Emit(src, srcPos, numBytes, matchPos);
    EmitSound(src, srcPos, numBytes, matchPos, t, srcPos + Advance(t));
    if numBytes < 3 {
      srcPos', dstPos', code' := EncodeLiteral(src, dst, srcPos, dstPos, code, v, cur);
    } else {
      srcPos', dstPos' := EncodeRun(src, dst, srcPos, dstPos, numBytes, matchPos, cur);
      code' := code;
    }
    EncodeTokensStep(src, srcPos, st, Choice(numBytes, matchPos, state.State()), t, srcPos');
  }

  lemma Regroup<T>(done: seq<T>, cur: seq<T>, t: T, rest: seq<T>)
    ensures done + cur + ([t] + rest) == done + (cur + [t]) + rest
  {
  }

  /** Writing a group out: the code byte, then the r.dstPos bytes of dst. */
  method CloseGroup(ret: seq<byte>, code: byte, dst: array<byte>, dstPos: nat, ghost head: seq<byte>, ghost done: seq<Token>, ghost cur: seq<Token>, ghost groups: nat)
    returns (ret': seq<byte>)
    requires AllWellFormed(done) && AllWellFormed(cur) && ret == head + Body(done)
    requires |done| == 8 * groups && 1 <= |cur| <= 8 && code == PackW(Flags(cur), 0)
    requires dstPos == |UnitsOf(cur)| <= dst.Length && dst[..dstPos] == UnitsOf(cur)
    ensures AllWellFormed(done + cur) && ret' == head + Body(done + cur)
  {
    ret' := AppendBytes(ret + [code], dst, dstPos);
    BodyAppend(done, cur, groups);
    GroupAppend(head, Body(done), code, UnitsOf(cur), Body(done + cur));
  }

  lemma GroupAppend(head: seq<byte>, body: seq<byte>, code: byte, units: seq<byte>, body': seq<byte>)
    requires body' == body + ([code] + units)
    ensures head + body + [code] + units == head + body'
  {
  }

  /** What encode's variables hold after a pass, before the group check: the
    * tokens so far are whole groups `done`, already in ret, and the current
    * group `cur`, whose flags are in the code byte and whose units are in dst;
    * the encoder's tokens from srcPos on complete `all`. */
  ghost predicate Pending(src: seq<byte>, all: seq<Token>, srcPos: nat, st: Look, ret: seq<byte>,
                          done: seq<Token>, cur: seq<Token>, groups: nat, v: nat, code: byte, units: seq<byte>)
  {
    srcPos <= |src| && Ready(src, srcPos, st) &&
    done + cur + EncodeTokens(src, srcPos, st) == all &&
    AllWellFormed(done) && AllWellFormed(cur) && |done| == 8 * groups &&
    ret == Header(|src|) + Body(done) &&
    v == |cur| <= 8 && code == PackW(Flags(cur), 0) && units == UnitsOf(cur)
  }

  /** What encode's variables hold between passes: a group is never left full. */
  ghost predicate EncodeInv(src: seq<byte>, all: seq<Token>, srcPos: nat, st: Look, ret: seq<byte>,
                            done: seq<Token>, cur: seq<Token>, groups: nat, v: nat, code: byte, units: seq<byte>)
  {
    Pending(src, all, srcPos, st, ret, done, cur, groups, v, code, units) && v < 8
  }

  /** A pass adds its token to the current group. */
  lemma {:induction false} UnitPending(src: seq<byte>, all: seq<Token>, srcPos: nat, st: Look, ret: seq<byte>,
                                       done: seq<Token>, cur: seq<Token>, groups: nat, v: nat, code: byte, units: seq<byte>,
                                       srcPos': nat, st': Look, t: Token, code': byte, units': seq<byte>)
    requires EncodeInv(src, all, srcPos, st, ret, done, cur, groups, v, code, units)
    requires srcPos < srcPos' <= |src| && Ready(src, srcPos', st')
    requires EncodeTokens(src, srcPos, st) == [t] + EncodeTokens(src, srcPos', st')
    requires AllWellFormed(cur + [t]) && code' == PackW(Flags(cur + [t]), 0) && units' == UnitsOf(cur + [t])
    ensures Pending(src, all, srcPos', st', ret, done, cur + [t], groups, v + 1, code', units')
  {
    Regroup(done, cur, t, EncodeTokens(src, srcPos', st'));
  }

  /** Once a full group is written out, the next one starts empty. */
  lemma {:induction false} ClosePending(src: seq<byte>, all: seq<Token>, srcPos: nat, st: Look, ret: seq<byte>,
                                        done: seq<Token>, groups: nat)
    requires srcPos <= |src| && Ready(src, srcPos, st) && done + EncodeTokens(src, srcPos, st) == all
    requires AllWellFormed(done) && |done| == 8 * groups && ret == Header(|src|) + Body(done)
    ensures EncodeInv(src, all, srcPos, st, ret, done, [], groups, 0, 0, [])
  {
    assert done + [] == done;
  }

  /** One pass of encode's loop, the group written out when it is full. */
  method EncodeStep(src: seq<byte>, state: Encoder, dst: array<byte>, srcPos: nat, dstPos: nat, code: byte, v: nat, ret: seq<byte>,
                    ghost all: seq<Token>, ghost done: seq<Token>, ghost cur: seq<Token>, ghost groups: nat)
    returns (srcPos': nat, dstPos': nat, code': byte, v': nat, ret': seq<byte>, ghost done': seq<Token>, ghost cur': seq<Token>, ghost groups': nat)
    requires srcPos < |src| && dst.Length == 24 && dstPos <= 24
    requires EncodeInv(src, all, srcPos, state.State(), ret, done, cur, groups, v, code, dst[..dstPos])
    modifies state, dst
    ensures srcPos < srcPos' && dstPos' <= 24
    ensures EncodeInv(src, all, srcPos', state.State(), ret', done', cur', groups', v', code', dst[..dstPos'])
  {
    ghost var t;
    ghost var st := state.State();
    ghost var units := dst[..dstPos];
    srcPos', dstPos', code', t := EncodeUnit(src, state, dst, srcPos, dstPos, code, v, cur);
    ghost var units' := dst[..dstPos'];
    UnitPending(src, all, srcPos, st, ret, done, cur, groups, v, code, units, srcPos', state.State(), t, code', units');
    done', cur', groups' := done, cur + [t], groups;
    v', ret' := v + 1, ret;
    if v' == 8 {
      ret' := CloseGroup(ret, code', dst, dstPos', Header(|src|), done, cur', groups);
      assert done + cur' + EncodeTokens(src, srcPos', state.State()) == all;
      ClosePending(src, all, srcPos', state.State(), ret', done + cur', groups + 1);
      done', cur', groups' := done + cur', [], groups + 1;
      code', v', dstPos' := 0, 0, 0;
      assert dst[..dstPos'] == [];
    }
  }

  /** encode(std::vector<uint8_t>&). The percent it recomputes each pass is
    * progress display only. */
  method Encode(src: seq<byte>) returns (ret: seq<byte>)
    requires |src| < 0x8000_0000
    ensures ret == Encoded(src)
  {
    ret := EncodeHeader(|src|);
    var srcPos: nat, dstPos: nat := 0, 0;
    var dst := new byte[24];
    var validBitCount: nat, currCodeByte: byte := 0, 0;
    var state := new Encoder();
    ghost var all := EncodeTokens(src, 0, Start);
    ghost var done: seq<Token>, cur: seq<Token>, groups: nat := [], [], 0;
    while srcPos < |src|
      invariant dst.Length == 24 && dstPos <= 24
      invariant EncodeInv(src, all, srcPos, state.State(), ret, done, cur, groups, validBitCount, currCodeByte, dst[..dstPos])
      decreases |src| - srcPos
    {
      srcPos, dstPos, currCodeByte, validBitCount, ret, done, cur, groups :=
        EncodeStep(src, state, dst, srcPos, dstPos, currCodeByte, validBitCount, ret, all, done, cur, groups);
    }
    assert done + cur == all;
    if validBitCount > 0 {
      ret := CloseGroup(ret, currCodeByte, dst, dstPos, Header(|src|), done, cur, groups);
    } else {
      assert done == all;
    }
  }

  // ---------------------------------------------------------------------------
  // decode(encode(x)) == x

  /** The header encode writes is found by decode's search at offset 0, and
    * its size field reads back as n. */
  lemma HeaderFields(n: nat, body: seq<byte>, enc: seq<byte>)
    requires n < 0x1_0000_0000 && enc == Header(n) + body
    ensures 3 < |enc| && FindMagic(enc, 0) == 0
    ensures Util.ReadBe(enc, 4, 4) == n && enc[16..] == body
  {
    assert enc[0..4] == Magic;
    assert AtMagic(enc, 0);
    assert enc[4..8] == ToBE(n, 4);
    var r := Util.ReadBe(enc, 4, 4);
    assert Pow256(4) == 0x1_0000_0000;
    BEOfToBE(n, 4);
    BEOfToBE(r, 4);
  }

  /** The block encode writes decodes to the input and consumes the whole body. */
  lemma EncodedBlock(x: seq<byte>, ts: seq<Token>, body: seq<byte>, enc: seq<byte>)
    requires |x| < 0x8000_0000 && ts == EncodeTokens(x, 0, Start) && AllWellFormed(ts)
    requires body == Body(ts) && enc == Header(|x|) + body
    ensures 3 < |enc| && FindMagic(enc, 0) == 0
    ensures Block(enc, 0) == Inflated(|body|, x)
  {
    HeaderFields(|x|, body, enc);
    EncodeTokensExpand(x, 0, Start);
    assert x[..0] == [];
    var cap := Wrap32(|x| + 0x1000);
    assert cap == |x| + 0x1000;
    assert body[0..|body|] == body;
    InflateBody(body, |x|, cap, 0, [], 0, ts, |body|, x);
  }

  /** decode undoes encode: the one block encode writes decodes to the input,
    * and nothing follows it. */
  lemma RoundTrip(x: seq<byte>)
    requires |x| < 0x8000_0000
    ensures DecodeFrom(Encoded(x), 0) == Some(x)
  {
    var ts := EncodeTokens(x, 0, Start);
    EncodeTokensExpand(x, 0, Start);
    var body := Body(ts);
    var enc := Encoded(x);
    EncodedBlock(x, ts, body, enc);
    DecodeFromStep(enc, 0, 0, |body|, x, |enc|);
    assert x + [] == x;
  }
}
