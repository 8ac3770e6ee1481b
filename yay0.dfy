// extensions/nintendo/yay0.cpp: the Yay0 decoder.
//
// Yay0 carries the same tokens as Yaz0 (a literal byte, or a run of 3 to 0x111
// bytes from up to 0x1000 bytes back) in three separate streams: the control
// bytes from offset 16, the two-byte run units from the count offset, and the
// literal bytes and long-run length bytes from the data offset.
//
// The decoder decodeYay0 is the step function Inflate, run on arrays by the
// method DecodeYay0. Its partner is the stream layout of a token sequence
// (CodesOf, CountsOf, DataOf and Packed): decode reads back exactly the
// expansion of the tokens that a packed file holds.

module Yay0 {
  import opened Bytes
  import Util
  import Yaz0

  type Token = Yaz0.Token

  // ---------------------------------------------------------------------------
  // The three streams of a token sequence

  /** The control bytes: one per group of eight tokens, the last group's
    * unused bits clear. */
  function CodesOf(ts: seq<Token>): (r: seq<byte>)
    decreases |ts|
  {
    if ts == [] then []
    else if |ts| <= 8 then [Yaz0.PackW(Yaz0.Flags(ts), 0)]
    else [Yaz0.PackW(Yaz0.Flags(ts[..8]), 0)] + CodesOf(ts[8..])
  }

  /** What a token puts in the count stream: a run's length nibble (0 for
    * the long form) above the distance's top four bits, then its low byte. */
  function CountUnits(t: Token): (r: seq<byte>)
    requires Yaz0.WellFormed(t)
  {
    match t
    case Lit(_) => []
    case Ref(d, n) => [(if n >= 0x12 then 0 else (n - 2) * 0x10) + d / 0x100, d % 0x100]
  }

  /** What a token puts in the data stream: a literal's byte, or a long run's
    * length - 0x12. */
  function DataUnits(t: Token): (r: seq<byte>)
    requires Yaz0.WellFormed(t)
  {
    match t
    case Lit(b) => [b]
    case Ref(_, n) => if n >= 0x12 then [n - 0x12] else []
  }

  function CountsOf(ts: seq<Token>): (r: seq<byte>)
    requires Yaz0.AllWellFormed(ts)
  {
    if ts == [] then [] else CountUnits(ts[0]) + CountsOf(ts[1..])
  }

  function DataOf(ts: seq<Token>): (r: seq<byte>)
    requires Yaz0.AllWellFormed(ts)
  {
    if ts == [] then [] else DataUnits(ts[0]) + DataOf(ts[1..])
  }

  // ---------------------------------------------------------------------------
  // decodeYay0

  /** The decoder's cursors: codePos, countPos, r.srcPos (into the data
    * stream), what dst holds up to r.dstPos, the code byte and its bits left. */
  datatype YState = YState(code: nat, count: nat, data: nat, out: seq<byte>, cur: byte, bits: nat)

  /** Literal or run at the current control bit. Reads past a stream, a
    * write past the cap bytes of dst, and a run reaching back before dst
    * (copySource wraps to an index far past dst) are undefined: None. */
  function Consume(codes: seq<byte>, counts: seq<byte>, data: seq<byte>, cap: nat, st: YState): (r: Option<YState>)
    requires 1 <= st.bits <= 8
    ensures r.Some? ==> |st.out| < |r.value.out| <= cap && r.value.code == st.code
    ensures r.Some? ==> r.value.bits == st.bits - 1 && r.value.cur == Wrap8(st.cur as int * 2)
  {
    var next := Wrap8(st.cur as int * 2);
    if st.cur >= 0x80 then
      if st.data >= |data| || |st.out| >= cap then None
      else Some(YState(st.code, st.count, st.data + 1, st.out + [data[st.data]], next, st.bits - 1))
    else if st.count + 1 >= |counts| then None
    else
      var b1, b2 := counts[st.count], counts[st.count + 1];
      var dist: nat := (b1 as int % 0x10) * 0x100 + b2 as int;
      if |st.out| < dist + 1 then None
      else if b1 / 0x10 == 0 && st.data >= |data| then None
      else
        var n: nat := if b1 / 0x10 == 0 then data[st.data] as int + 0x12 else b1 / 0x10 + 2;
        var d := if b1 / 0x10 == 0 then st.data + 1 else st.data;
        if |st.out| + n > cap then None
        else Some(YState(st.code, st.count + 2, d, Yaz0.CopyRun(st.out, |st.out| - (dist + 1), n), next, st.bits - 1))
  }

  /** One pass of the while loop: a fresh code byte when the bits are used up, then one unit. */
  function Step(codes: seq<byte>, counts: seq<byte>, data: seq<byte>, cap: nat, st: YState): (r: Option<YState>)
    requires st.bits <= 8
    ensures r.Some? ==> |st.out| < |r.value.out| <= cap && r.value.bits < 8
  {
    if st.bits == 0 then
      if st.code >= |codes| then None
      else Consume(codes, counts, data, cap, YState(st.code + 1, st.count, st.data, st.out, codes[st.code], 8))
    else Consume(codes, counts, data, cap, st)
  }

  /** The while loop: units until dst holds at least `size` bytes. */
  function Inflate(codes: seq<byte>, counts: seq<byte>, data: seq<byte>, size: nat, cap: nat, st: YState): (r: Option<YState>)
    requires st.bits <= 8
    ensures r.Some? ==> |r.value.out| >= size && r.value.bits <= 8
    ensures r.Some? && |st.out| <= cap ==> |r.value.out| <= cap
    decreases size - |st.out|
  {
    if |st.out| >= size then Some(st)
    else match Step(codes, counts, data, cap, st)
      case None => None
      case Some(next) => Inflate(codes, counts, data, size, cap, next)
  }

  const Start := YState(0, 0, 0, [], 0, 0)

  /** decodeYay0's result: bytes read from the data stream and bytes written to dst. */
  datatype Ret = Ret(srcPos: nat, dstPos: nat)

  /** The literal or run at the current control bit, on the dst array. */
  method DecodeToken(codes: seq<byte>, counts: seq<byte>, data: seq<byte>, dst: array<byte>, st: YState, d: nat)
    returns (r: Option<YState>)
    requires 1 <= st.bits <= 8 && d == |st.out| <= dst.Length && dst[..d] == st.out
    modifies dst
    ensures r == Consume(codes, counts, data, dst.Length, st)
    ensures r.Some? ==> dst[..|r.value.out|] == r.value.out
    ensures r.Some? ==> dst[|r.value.out|..] == old(dst[|r.value.out|..])
  {
    var next := Wrap8(st.cur as int * 2);
    if st.cur >= 0x80 {
      if st.data >= |data| || d >= dst.Length {
        return None;
      }
      dst[d] := data[st.data];
      assert dst[..d + 1] == st.out + [data[st.data]];
      return Some(YState(st.code, st.count, st.data + 1, dst[..d + 1], next, st.bits - 1));
    }
    if st.count + 1 >= |counts| {
      return None;
    }
    var byte1, byte2 := counts[st.count], counts[st.count + 1];
    var dist: nat := (byte1 as int % 0x10) * 0x100 + byte2 as int;
    if d < dist + 1 {
      return None;
    }
    var numBytes: nat := byte1 / 0x10;
    var srcPos := st.data;
    if numBytes == 0 {
      if st.data >= |data| {
        return None;
      }
      numBytes := data[st.data] as int + 0x12;
      srcPos := st.data + 1;
    } else {
      numBytes := numBytes + 2;
    }
    if d + numBytes > dst.Length {
      return None;
    }
    ghost var tail := dst[d + numBytes..];
    Yaz0.CopyInto(dst, d - (dist + 1), d, numBytes);
    assert dst[d + numBytes..] == tail;
    return Some(YState(st.code, st.count + 2, srcPos, dst[..d + numBytes], next, st.bits - 1));
  }

  /** The loop body of decodeYay0. */
  method DecodeUnit(codes: seq<byte>, counts: seq<byte>, data: seq<byte>, dst: array<byte>, st: YState, d: nat)
    returns (r: Option<YState>)
    requires st.bits <= 8 && d == |st.out| <= dst.Length && dst[..d] == st.out
    modifies dst
    ensures r == Step(codes, counts, data, dst.Length, st)
    ensures r.Some? ==> dst[..|r.value.out|] == r.value.out
    ensures r.Some? ==> dst[|r.value.out|..] == old(dst[|r.value.out|..])
  {
    if st.bits == 0 {
      if st.code >= |codes| {
        return None;
      }
      r := DecodeToken(codes, counts, data, dst, YState(st.code + 1, st.count, st.data, st.out, codes[st.code], 8), d);
    } else {
      r := DecodeToken(codes, counts, data, dst, st, d);
    }
  }

  /** decodeYay0(codes, counts, srcData, dst, uncompressedSize): None where
    * the source's behaviour is undefined; dst past what was written keeps its
    * contents. */
  method DecodeYay0(codes: seq<byte>, counts: seq<byte>, data: seq<byte>, dst: array<byte>, size: nat) returns (r: Option<Ret>)
    modifies dst
    ensures match Inflate(codes, counts, data, size, dst.Length, Start)
      case None => r.None?
      case Some(st) =>
        r == Some(Ret(st.data, |st.out|)) && |st.out| <= dst.Length &&
        dst[..|st.out|] == st.out && dst[|st.out|..] == old(dst[|st.out|..])
  {
    var st := Start;
    var dstPos := 0;
    ghost var want := Inflate(codes, counts, data, size, dst.Length, Start);
    while dstPos < size
      invariant st.bits <= 8 && dstPos == |st.out| <= dst.Length && dst[..dstPos] == st.out
      invariant dst[dstPos..] == old(dst[dstPos..])
      invariant Inflate(codes, counts, data, size, dst.Length, st) == want
      decreases size - dstPos
    {
      var next := DecodeUnit(codes, counts, data, dst, st, dstPos);
      if next.None? {
        return None;
      }
      st, dstPos := next.value, |next.value.out|;
    }
    return Some(Ret(st.data, dstPos));
  }

  // ---------------------------------------------------------------------------
  // decode(vector)

  const Magic: seq<byte> := [0x59, 0x61, 0x79, 0x30]

  predicate HasMagic(src: seq<byte>)
  {
    4 <= |src| && src[..4] == Magic
  }

  function Zeros(n: nat): (r: seq<byte>)
    ensures |r| == n && forall k :: 0 <= k < n ==> r[k] == 0
  {
    seq(n, _ => 0)
  }

  /** uncompressedSize is an int: a decoded size of 2^31 or more turns
    * negative there, and the loop does not run. */
  function Limit(size: nat): nat
  {
    if size < 0x8000_0000 then size else 0
  }

  /** decode(std::vector<uint8_t>): an empty vector without the magic;
    * otherwise a dst of decodedSize + 0x1000 bytes (a uint32_t sum), zero
    * past what decodeYay0 wrote. The streams are the input from 16, from the
    * count offset and from the data offset on; an offset past the end makes
    * util::subset build a vector from a reversed range, which is undefined,
    * as is any undefined read of decodeYay0: None. */
  function Decode(src: seq<byte>): (r: Option<seq<byte>>)
    ensures !HasMagic(src) ==> r == Some([])
    ensures HasMagic(src) && r.Some? ==> |r.value| == Wrap32(Util.ReadBe(src, 4, 4) + 0x1000)
  {
    if !HasMagic(src) then Some([])
    else
      var size := Util.ReadBe(src, 4, 4);
      var countOffset, dataOffset := Util.ReadBe(src, 8, 4), Util.ReadBe(src, 12, 4);
      var cap := Wrap32(size + 0x1000);
      if |src| < 16 || countOffset > |src| || dataOffset > |src| then None
      else match Inflate(src[16..], src[countOffset..], src[dataOffset..], Limit(size), cap, Start)
        case None => None
        case Some(st) => Some(st.out + Zeros(cap - |st.out|))
  }

  /** decode on a file whose header fields and streams are known. */
  lemma {:induction false} DecodeIs(src: seq<byte>, size: nat, a: nat, b: nat, s1: seq<byte>, s2: seq<byte>, s3: seq<byte>,
                                    cap: nat, res: Option<YState>)
    requires HasMagic(src) && 16 <= |src| && a <= |src| && b <= |src|
    requires Util.ReadBe(src, 4, 4) == size && Util.ReadBe(src, 8, 4) == a && Util.ReadBe(src, 12, 4) == b
    requires s1 == src[16..] && s2 == src[a..] && s3 == src[b..] && cap == Wrap32(size + 0x1000)
    requires res == Inflate(s1, s2, s3, Limit(size), cap, Start)
    ensures res.None? ==> Decode(src).None?
    ensures res.Some? ==> |res.value.out| <= cap && Decode(src) == Some(res.value.out + Zeros(cap - |res.value.out|))
  {
  }

  /** util::read compares equal to "Yay0" exactly at the magic bytes. */
  lemma {:induction false} MagicText(src: seq<byte>)
    ensures Util.ReadText(src, 0, 4) == Some("Yay0") <==> HasMagic(src)
  {
    if 4 <= |src| {
      var tag := "Yay0";
      Util.ReadTextTag(src, 0, tag);
      assert Chars(Magic) == tag;
      assert src[0..4] == src[..4];
      if Chars(src[..4]) == tag {
        CharsInjective(src[..4], Magic);
      }
    }
  }

  /** decode(const std::vector<uint8_t>&). */
  method DecodeFile(src: seq<byte>) returns (r: Option<seq<byte>>)
    ensures r == Decode(src)
  {
    MagicText(src);
    if Util.ReadText(src, 0, 4) != Some("Yay0") {
      return Some([]);
    }
    var decodedSize := Util.ReadBig(src, 4, 4);
    var countOffset := Util.ReadBig(src, 8, 4);
    var dataOffset := Util.ReadBig(src, 12, 4);
    var dst := new byte[Wrap32(decodedSize + 0x1000)](_ => 0);
    if |src| < 16 || countOffset > |src| || dataOffset > |src| {
      return None;
    }
    var codes := Util.Subset(src, 16, |src| - 16);
    var counts := Util.Subset(src, countOffset, |src| - countOffset);
    var data := Util.Subset(src, dataOffset, |src| - dataOffset);
    assert codes == src[16..] && counts == src[countOffset..] && data == src[dataOffset..];
    assert dst[..] == Zeros(dst.Length);
    var res := DecodeYay0(codes, counts, data, dst, Limit(decodedSize));
    DecodeIs(src, decodedSize, countOffset, dataOffset, codes, counts, data, dst.Length,
             Inflate(codes, counts, data, Limit(decodedSize), dst.Length, Start));
    if res.None? {
      return None;
    }
    Padded(dst[..], res.value.dstPos);
    return Some(dst[..]);
  }

  /** A buffer whose tail from `pos` is still zero is its head padded with zeros. */
  lemma Padded(d: seq<byte>, pos: nat)
    requires pos <= |d| && d[pos..] == Zeros(|d|)[pos..]
    ensures d == d[..pos] + Zeros(|d| - pos)
  {
    assert d == d[..pos] + d[pos..];
  }

  // ---------------------------------------------------------------------------
  // decode reads back the stream layout of a token sequence

  /** p sits in s at `at`. */
  predicate Prefix(s: seq<byte>, at: nat, p: seq<byte>)
  {
    at + |p| <= |s| && s[at..at + |p|] == p
  }

  function Min(a: nat, b: nat): nat
  {
    if a <= b then a else b
  }

  /** The code stream from `code` on, and the code byte with `bits` bits
    * left, hold the flags of ts: those of its first tokens on top of the code
    * byte, the groups of the rest in the stream. */
  predicate CodeLayout(codes: seq<byte>, code: nat, cur: byte, bits: nat, ts: seq<Token>)
  {
    var m := Min(bits, |ts|);
    bits <= 8 &&
    (bits > 0 ==> cur == Yaz0.PackW(Yaz0.Flags(ts[..m]), 0)) &&
    Prefix(codes, code, CodesOf(ts[m..]))
  }

  /** The count and data streams from their cursors on hold the units of ts. */
  predicate UnitLayout(counts: seq<byte>, data: seq<byte>, count: nat, d: nat, ts: seq<Token>)
    requires Yaz0.AllWellFormed(ts)
  {
    Prefix(counts, count, CountsOf(ts)) && Prefix(data, d, DataOf(ts))
  }

  /** The streams from the cursors of st on hold the tokens ts. */
  predicate Layout(codes: seq<byte>, counts: seq<byte>, data: seq<byte>, st: YState, ts: seq<Token>)
    requires Yaz0.AllWellFormed(ts)
  {
    CodeLayout(codes, st.code, st.cur, st.bits, ts) && UnitLayout(counts, data, st.count, st.data, ts)
  }

  /** A window that spells a + b spells a, then b. */
  lemma {:induction false} PrefixSplit(s: seq<byte>, at: nat, a: seq<byte>, b: seq<byte>)
    requires Prefix(s, at, a + b)
    ensures Prefix(s, at, a) && Prefix(s, at + |a|, b)
  {
    assert s[at..at + |a|] == s[at..at + |a| + |b|][..|a|];
    assert s[at + |a|..at + |a| + |b|] == s[at..at + |a| + |b|][|a|..];
  }

  lemma {:induction false} AllWellFormedTail(ts: seq<Token>)
    requires ts != [] && Yaz0.AllWellFormed(ts)
    ensures Yaz0.WellFormed(ts[0]) && Yaz0.AllWellFormed(ts[1..])
  {
    Yaz0.AllWellFormedSlice(ts, 1, |ts|);
  }

  /** The count units of a run decode to its distance and length. */
  lemma {:induction false} CountFields(d: nat, n: nat)
    requires Yaz0.WellFormed(Yaz0.Ref(d, n))
    ensures var u := CountUnits(Yaz0.Ref(d, n));
      (u[0] as int % 0x10) * 0x100 + u[1] as int == d &&
      (u[0] / 0x10 == 0 <==> n >= 0x12) &&
      (n < 0x12 ==> u[0] / 0x10 + 2 == n)
  {
    var hi := d / 0x100;
    assert hi < 0x10;
    if n < 0x12 {
      var b1 := (n - 2) * 0x10 + hi;
      assert b1 / 0x10 == n - 2 && b1 % 0x10 == hi;
    }
  }

  /** The flag of the first token is the top bit of the code byte; shifting
    * it out leaves the flags of the rest. */
  lemma {:induction false} CodeStep(codes: seq<byte>, code: nat, cur: byte, bits: nat, ts: seq<Token>, cur': byte)
    requires ts != [] && 1 <= bits && CodeLayout(codes, code, cur, bits, ts) && cur' == Wrap8(cur as int * 2)
    ensures (cur >= 0x80 <==> ts[0].Lit?) && CodeLayout(codes, code, cur', bits - 1, ts[1..])
  {
    var rest := ts[1..];
    var m := Min(bits, |ts|);
    assert Min(bits - 1, |rest|) == m - 1;
    FlagShift(ts, m, cur, cur');
    assert ts[m..] == rest[m - 1..];
  }

  /** Doubling a control byte drops the flag of the token it led with. */
  lemma {:induction false} FlagShift(ts: seq<Token>, m: nat, cur: byte, cur': byte)
    requires 1 <= m <= |ts| && m <= 8 && cur == Yaz0.PackW(Yaz0.Flags(ts[..m]), 0) && cur' == Wrap8(cur as int * 2)
    ensures (cur >= 0x80 <==> ts[0].Lit?) && cur' == Yaz0.PackW(Yaz0.Flags(ts[1..][..m - 1]), 0)
  {
    var f := Yaz0.Flags(ts[..m]);
    assert f[1..] == Yaz0.Flags(ts[1..][..m - 1]) by {
      assert ts[..m][1..] == ts[1..][..m - 1];
    }
    Yaz0.PackTop(f);
    Yaz0.PackShift(f);
  }

  /** The units of the first token come first in the count and data streams. */
  lemma {:induction false} UnitStep(counts: seq<byte>, data: seq<byte>, count: nat, d: nat, ts: seq<Token>, count': nat, d': nat)
    requires ts != [] && Yaz0.AllWellFormed(ts) && UnitLayout(counts, data, count, d, ts)
    requires Yaz0.WellFormed(ts[0]) && count' == count + |CountUnits(ts[0])| && d' == d + |DataUnits(ts[0])|
    ensures Yaz0.AllWellFormed(ts[1..])
    ensures Prefix(counts, count, CountUnits(ts[0])) && Prefix(data, d, DataUnits(ts[0]))
    ensures UnitLayout(counts, data, count', d', ts[1..])
  {
    AllWellFormedTail(ts);
    PrefixSplit(counts, count, CountUnits(ts[0]), CountsOf(ts[1..]));
    PrefixSplit(data, d, DataUnits(ts[0]), DataOf(ts[1..]));
  }

  /** A set flag copies the next data byte. */
  lemma {:induction false} ConsumeLit(codes: seq<byte>, counts: seq<byte>, data: seq<byte>, cap: nat, st: YState, b: byte, st': YState)
    requires st.cur >= 0x80 && 1 <= st.bits <= 8 && Prefix(data, st.data, [b]) && |st.out| + 1 <= cap
    requires st' == YState(st.code, st.count, st.data + 1, st.out + [b], Wrap8(st.cur as int * 2), st.bits - 1)
    ensures Consume(codes, counts, data, cap, st) == Some(st')
  {
    assert data[st.data..st.data + 1][0] == data[st.data];
  }

  /** A clear flag decodes the run whose units come next. */
  lemma {:induction false} ConsumeRef(codes: seq<byte>, counts: seq<byte>, data: seq<byte>, cap: nat, st: YState, d: nat, n: nat, next: seq<byte>, st': YState)
    requires st.cur < 0x80 && 1 <= st.bits <= 8 && Yaz0.WellFormed(Yaz0.Ref(d, n))
    requires Prefix(counts, st.count, CountUnits(Yaz0.Ref(d, n))) && Prefix(data, st.data, DataUnits(Yaz0.Ref(d, n)))
    requires Yaz0.Play(st.out, Yaz0.Ref(d, n)) == Some(next) && |next| <= cap
    requires st' == YState(st.code, st.count + 2, st.data + |DataUnits(Yaz0.Ref(d, n))|, next, Wrap8(st.cur as int * 2), st.bits - 1)
    ensures Consume(codes, counts, data, cap, st) == Some(st')
  {
    CountFields(d, n);
    var u := CountUnits(Yaz0.Ref(d, n));
    assert counts[st.count] == u[0] && counts[st.count + 1] == u[1] by {
      assert counts[st.count..st.count + 2][0] == counts[st.count];
      assert counts[st.count..st.count + 2][1] == counts[st.count + 1];
    }
    if n >= 0x12 {
      assert data[st.data] == DataUnits(Yaz0.Ref(d, n))[0] by {
        assert data[st.data..st.data + 1][0] == data[st.data];
      }
    }
  }

  /** The first token, its flag on top of the code byte and its units next
    * in the streams, decodes to its expansion. */
  lemma {:induction false} ConsumeFirst(codes: seq<byte>, counts: seq<byte>, data: seq<byte>, cap: nat, st: YState,
                                        t: Token, next: seq<byte>, st': YState)
    requires 1 <= st.bits <= 8 && Yaz0.WellFormed(t) && (st.cur >= 0x80 <==> t.Lit?)
    requires Prefix(counts, st.count, CountUnits(t)) && Prefix(data, st.data, DataUnits(t))
    requires Yaz0.Play(st.out, t) == Some(next) && |next| <= cap
    requires st' == YState(st.code, st.count + |CountUnits(t)|, st.data + |DataUnits(t)|, next,
                           Wrap8(st.cur as int * 2), st.bits - 1)
    ensures Consume(codes, counts, data, cap, st) == Some(st')
  {
    match t
    case Lit(b) =>
      ConsumeLit(codes, counts, data, cap, st, b, st');
    case Ref(d, n) =>
      ConsumeRef(codes, counts, data, cap, st, d, n, next, st');
  }

  /** The first token decodes to its expansion and leaves the rest laid out. */
  lemma {:induction false} TokenStep(codes: seq<byte>, counts: seq<byte>, data: seq<byte>, cap: nat, st: YState,
                                     ts: seq<Token>, next: seq<byte>, st': YState)
    requires ts != [] && Yaz0.AllWellFormed(ts) && 1 <= st.bits && Layout(codes, counts, data, st, ts)
    requires Yaz0.Play(st.out, ts[0]) == Some(next) && |next| <= cap
    requires st' == YState(st.code, st.count + |CountUnits(ts[0])|, st.data + |DataUnits(ts[0])|, next,
                           Wrap8(st.cur as int * 2), st.bits - 1)
    ensures Yaz0.AllWellFormed(ts[1..])
    ensures Consume(codes, counts, data, cap, st) == Some(st')
    ensures Layout(codes, counts, data, st', ts[1..])
  {
    CodeStep(codes, st.code, st.cur, st.bits, ts, st'.cur);
    AllWellFormedTail(ts);
    UnitStep(counts, data, st.count, st.data, ts, st'.count, st'.data);
    ConsumeFirst(codes, counts, data, cap, st, ts[0], next, st');
  }

  /** The code stream of ts starts with the flags of its first group. */
  lemma {:induction false} CodesHead(ts: seq<Token>, m: nat)
    requires ts != [] && m == Min(8, |ts|)
    ensures CodesOf(ts) == [Yaz0.PackW(Yaz0.Flags(ts[..m]), 0)] + CodesOf(ts[m..])
  {
    if |ts| <= 8 {
      assert ts[..m] == ts && ts[m..] == [];
    }
  }

  /** With no bits left, the next code byte carries the flags of the next group. */
  lemma {:induction false} Fetch(codes: seq<byte>, counts: seq<byte>, data: seq<byte>, st: YState, ts: seq<Token>, st1: YState)
    requires ts != [] && Yaz0.AllWellFormed(ts) && st.bits == 0 && Layout(codes, counts, data, st, ts)
    requires st1 == YState(st.code + 1, st.count, st.data, st.out, if st.code < |codes| then codes[st.code] else 0, 8)
    ensures st.code < |codes| && Layout(codes, counts, data, st1, ts)
  {
    var m := Min(8, |ts|);
    var head: seq<byte> := [Yaz0.PackW(Yaz0.Flags(ts[..m]), 0)];
    var tail := CodesOf(ts[m..]);
    assert ts[0..] == ts;
    assert Prefix(codes, st.code, CodesOf(ts));
    CodesHead(ts, m);
    PrefixSplit(codes, st.code, head, tail);
    assert codes[st.code..st.code + 1][0] == codes[st.code];
    assert CodeLayout(codes, st1.code, st1.cur, st1.bits, ts);
  }

  /** decodeYay0 over laid-out streams writes the expansion of the tokens. */
  lemma {:induction false} InflateTokens(codes: seq<byte>, counts: seq<byte>, data: seq<byte>, size: nat, cap: nat,
                                         st: YState, ts: seq<Token>, full: seq<byte>)
    requires Yaz0.AllWellFormed(ts) && Layout(codes, counts, data, st, ts)
    requires Yaz0.Expand(st.out, ts) == Some(full) && |full| == size <= cap
    ensures Inflate(codes, counts, data, size, cap, st).Some?
    ensures Inflate(codes, counts, data, size, cap, st).value.out == full
    decreases |ts|
  {
    if ts != [] {
      Yaz0.ExpandGrows(st.out, ts);
      var st1 := if st.bits == 0 then YState(st.code + 1, st.count, st.data, st.out, if st.code < |codes| then codes[st.code] else 0, 8) else st;
      if st.bits == 0 {
        Fetch(codes, counts, data, st, ts, st1);
      }
      var next := Yaz0.Play(st.out, ts[0]).value;
      AllWellFormedTail(ts);
      var st2 := YState(st1.code, st1.count + |CountUnits(ts[0])|, st1.data + |DataUnits(ts[0])|, next,
                        Wrap8(st1.cur as int * 2), st1.bits - 1);
      TokenStep(codes, counts, data, cap, st1, ts, next, st2);
      assert Step(codes, counts, data, cap, st) == Some(st2);
      InflateTokens(codes, counts, data, size, cap, st2, ts[1..], full);
    }
  }

  /** The 16-byte header: the magic, the decoded size, the count-stream and
    * data-stream offsets, each big-endian. */
  function Head(size: nat, countOffset: nat, dataOffset: nat): (r: seq<byte>)
    ensures |r| == 16
  {
    Magic + ToBE(size, 4) + ToBE(countOffset, 4) + ToBE(dataOffset, 4)
  }

  /** A Yay0 file holding the tokens ts: the header, then the three streams. */
  function Packed(ts: seq<Token>, size: nat): (r: seq<byte>)
    requires Yaz0.AllWellFormed(ts)
  {
    var codes, counts := CodesOf(ts), CountsOf(ts);
    Head(size, 16 + |codes|, 16 + |codes| + |counts|) + (codes + counts + DataOf(ts))
  }

  /** A big-endian field of the header reads back. */
  lemma {:induction false} ReadField(src: seq<byte>, h: seq<byte>, rest: seq<byte>, at: nat, v: nat)
    requires src == h + rest && |h| == 16 && at + 4 <= 16
    requires v < 0x1_0000_0000 && h[at..at + 4] == ToBE(v, 4)
    ensures Util.ReadBe(src, at, 4) == v
  {
    assert src[at..at + 4] == h[at..at + 4];
    assert Pow256(4) == 0x1_0000_0000;
    BEOfToBE(v, 4);
    BEOfToBE(Util.ReadBe(src, at, 4), 4);
  }

  /** The header fields of a packed file read back. */
  lemma {:induction false} PackedHeader(ts: seq<Token>, size: nat, src: seq<byte>)
    requires Yaz0.AllWellFormed(ts) && src == Packed(ts, size)
    requires size < 0x1_0000_0000 && 16 + |CodesOf(ts)| + |CountsOf(ts)| < 0x1_0000_0000
    ensures HasMagic(src) && 16 <= |src|
    ensures Util.ReadBe(src, 4, 4) == size
    ensures Util.ReadBe(src, 8, 4) == 16 + |CodesOf(ts)|
    ensures Util.ReadBe(src, 12, 4) == 16 + |CodesOf(ts)| + |CountsOf(ts)|
    ensures src[16..] == CodesOf(ts) + CountsOf(ts) + DataOf(ts)
  {
    var codes, counts := CodesOf(ts), CountsOf(ts);
    var a, b := 16 + |codes|, 16 + |codes| + |counts|;
    var h, rest := Head(size, a, b), codes + counts + DataOf(ts);
    assert h[..4] == Magic && h[4..8] == ToBE(size, 4) && h[8..12] == ToBE(a, 4) && h[12..16] == ToBE(b, 4);
    assert src[..4] == h[..4];
    ReadField(src, h, rest, 4, size);
    ReadField(src, h, rest, 8, a);
    ReadField(src, h, rest, 12, b);
  }

  /** decode reads back the tokens a packed file holds: their expansion,
    * followed by the 0x1000 zero bytes of slack. */
  lemma {:induction false} DecodePacked(ts: seq<Token>, full: seq<byte>)
    requires Yaz0.AllWellFormed(ts) && Yaz0.Expand([], ts) == Some(full) && |full| < 0x8000_0000
    requires 16 + |CodesOf(ts)| + |CountsOf(ts)| < 0x1_0000_0000
    ensures Decode(Packed(ts, |full|)) == Some(full + Zeros(0x1000))
  {
    var src := Packed(ts, |full|);
    PackedHeader(ts, |full|, src);
    DecodeHeadered(ts, full, src);
  }

  /** Any file with a packed file's header and streams decodes to their expansion. */
  lemma {:induction false} DecodeHeadered(ts: seq<Token>, full: seq<byte>, src: seq<byte>)
    requires Yaz0.AllWellFormed(ts) && Yaz0.Expand([], ts) == Some(full) && |full| < 0x8000_0000
    requires HasMagic(src) && 16 <= |src|
    requires Util.ReadBe(src, 4, 4) == |full|
    requires Util.ReadBe(src, 8, 4) == 16 + |CodesOf(ts)|
    requires Util.ReadBe(src, 12, 4) == 16 + |CodesOf(ts)| + |CountsOf(ts)|
    requires src[16..] == CodesOf(ts) + CountsOf(ts) + DataOf(ts)
    ensures Decode(src) == Some(full + Zeros(0x1000))
  {
    var a, b := 16 + |CodesOf(ts)|, 16 + |CodesOf(ts)| + |CountsOf(ts)|;
    var s1, s2, s3 := src[16..], src[a..], src[b..];
    PackedStreams(ts, src, a, b, s1, s2, s3);
    InflateTokens(s1, s2, s3, |full|, |full| + 0x1000, Start, ts, full);
    DecodeFull(src, |full|, a, b, s1, s2, s3, full);
  }

  /** The three streams cut out of a packed file at its header offsets start the decoder on `ts`. */
  lemma {:induction false} PackedStreams(ts: seq<Token>, src: seq<byte>, a: nat, b: nat,
                                         s1: seq<byte>, s2: seq<byte>, s3: seq<byte>)
    requires Yaz0.AllWellFormed(ts) && 16 <= |src|
    requires src[16..] == CodesOf(ts) + CountsOf(ts) + DataOf(ts)
    requires a == 16 + |CodesOf(ts)| && b == a + |CountsOf(ts)|
    requires s1 == src[16..] && s2 == src[a..] && s3 == src[b..]
    ensures a <= |src| && b <= |src| && Layout(s1, s2, s3, Start, ts)
  {
    var codes, counts, data := CodesOf(ts), CountsOf(ts), DataOf(ts);
    assert s2 == counts + data && s3 == data by {
      assert s2 == src[16..][|codes|..];
      assert s3 == src[16..][|codes| + |counts|..];
    }
    assert ts[0..] == ts;
    assert Prefix(s1, 0, codes) && Prefix(s2, 0, counts) && Prefix(s3, 0, data);
  }

  /** The file decodes to `full` padded with 0x1000 zero bytes once its streams inflate to `full`. */
  lemma {:induction false} DecodeFull(src: seq<byte>, size: nat, a: nat, b: nat, s1: seq<byte>, s2: seq<byte>, s3: seq<byte>,
                                      full: seq<byte>)
    requires HasMagic(src) && 16 <= |src| && a <= |src| && b <= |src| && size == |full| < 0x8000_0000
    requires Util.ReadBe(src, 4, 4) == size && Util.ReadBe(src, 8, 4) == a && Util.ReadBe(src, 12, 4) == b
    requires s1 == src[16..] && s2 == src[a..] && s3 == src[b..]
    requires Inflate(s1, s2, s3, size, size + 0x1000, Start).Some?
    requires Inflate(s1, s2, s3, size, size + 0x1000, Start).value.out == full
    ensures Decode(src) == Some(full + Zeros(0x1000))
  {
    var cap := size + 0x1000;
    assert Limit(size) == size && Wrap32(size + 0x1000) == cap;
    DecodeIs(src, size, a, b, s1, s2, s3, cap, Inflate(s1, s2, s3, size, cap, Start));
  }
}
