// The corruption loop: Corruption::corrupt (corrupt.cpp), the same loop with
// every byte accepted in NintendoFile::corrupt (extensions/nintendo/nintendo.cpp),
// and the variants of it that the NES PRG-ROM pass and the NDS per-file pass use.
//
// Every pass walks i = start, start + step, ... while i is below a limit and
// applies one corruption at i, asking the console's valid_byte(byte, location)
// first. valid_byte is a parameter: it may read the ROM as it stands at that
// moment. The random generator is an oracle `draw`, indexed by the number of
// bytes drawn so far.

module Engine {
  import opened Bytes
  import opened Config
  import Util
  import Bits

  /** valid_byte(byte, location), given the current ROM. */
  type Validator = (seq<byte>, byte, nat) -> bool

  /** The base class's valid_byte, and NintendoFile's loop, which asks nothing. */
  function AlwaysValid(): Validator
  {
    (rom: seq<byte>, b: byte, loc: nat) => true
  }

  /** The byte a corruption that only looks at rom[i] writes there. The uint8_t
    * operand is combined with the uint32_t value and truncated back to 8 bits,
    * so only the low byte of the value matters for &, |, ^ and +; ~ on the
    * promoted int truncates to 255 - x. */
  function PointOp(kind: CorruptionType, v: u32, x: byte): byte
  {
    match kind
    case Add => Wrap8(x + v)
    case Set => Wrap8(v)
    case RotateLeft => Util.Rol8(x, v)
    case RotateRight => Util.Ror8(x, v)
    case LogicalAnd => Bits.AndByte(x, v % 0x100)
    case LogicalOr => Bits.OrByte(x, v % 0x100)
    case LogicalXor => Bits.XorByte(x, v % 0x100)
    case _ => 0xFF - x
  }

  /** Corruptions whose new byte depends on rom[i] alone (Add, in the NES
    * variant, checks a different byte than it writes and is not one). */
  predicate IsPointwise(kind: CorruptionType)
  {
    kind.Add? || kind.Set? || kind.RotateLeft? || kind.RotateRight? ||
    kind.LogicalAnd? || kind.LogicalOr? || kind.LogicalXor? || kind.LogicalComplement?
  }

  /** Where the loops differ.
    * guarded:         Shift and Swap test i + value < size before anything else and
    *                  skip the index when it fails (else the read is undefined);
    * swapExchanges:   Swap exchanges the two bytes (else both get rom[i + value]);
    * swapCheckTarget: Swap's second valid_byte is asked at i + value (else at i);
    * addReadsTarget:  Add asks valid_byte about rom[i + value] + value. */
  datatype Variant = Variant(guarded: bool, swapExchanges: bool, swapCheckTarget: bool, addReadsTarget: bool)

  const BaseLoop := Variant(true, false, false, false)
  const NdsLoop := Variant(true, false, true, false)
  const NesPrgLoop := Variant(false, true, true, true)

  /** One pass: what to do, with which value, how far apart, and the bound i must stay below. */
  datatype Pass = Pass(kind: CorruptionType, value: u32, step: u32, limit: nat, variant: Variant)

  /** The loop ends: a step of 0 would revisit i forever (unless the type is
    * None, which breaks at once), and i + step never passes 2^32, so the
    * uint32_t index does not wrap. */
  predicate Terminates(p: Pass)
  {
    (p.kind != Unset ==> p.step > 0) && p.limit + p.step <= 0x1_0000_0000
  }

  /** The effect of the loop body at i. */
  datatype Act =
    | Done(rom: seq<byte>, drawn: nat, hit: bool)
    | Break
    | Fault   // an unchecked read past the end of the ROM

  /** Up to 100 draws until valid_byte accepts one: the byte and the draws used. */
  function RandomTry(rom: seq<byte>, i: nat, valid: Validator, draw: nat -> byte, drawn: nat, tries: nat): (r: (Option<byte>, nat))
    requires tries <= 100
    ensures drawn <= r.1 <= drawn + (100 - tries)
    ensures r.0.Some? ==> drawn < r.1 && valid(rom, r.0.value, i) && r.0.value == draw(r.1 - 1)
    decreases 100 - tries
  {
    if tries == 100 then (None, drawn)
    else if valid(rom, draw(drawn), i) then (Some(draw(drawn)), drawn + 1)
    else RandomTry(rom, i, valid, draw, drawn + 1, tries + 1)
  }

  /** The loop body at position i. */
  function Apply(rom: seq<byte>, i: nat, p: Pass, valid: Validator, draw: nat -> byte, drawn: nat): (r: Act)
    ensures r.Done? ==> |r.rom| == |rom| && drawn <= r.drawn
    ensures r.Done? ==> forall k :: 0 <= k < |rom| && k != i && (k != Wrap32(i + p.value) || !p.kind.Swap?) ==> r.rom[k] == rom[k]
    ensures r.Break? <==> p.kind == Unset
  {
    var j := Wrap32(i + p.value);
    if p.kind == Unset then Break
    else if (p.kind.Shift? || p.kind.Swap?) && p.variant.guarded && j >= |rom| then Done(rom, drawn, false)
    else if i >= |rom| then Fault
    else if p.kind.Shift? || p.kind.Swap? then
      if j >= |rom| then Fault
      else if p.kind.Shift? then
        if valid(rom, rom[j], i) then Done(rom[i := rom[j]], drawn, true) else Done(rom, drawn, false)
      else
        var loc2 := if p.variant.swapCheckTarget then j else i;
        if valid(rom, rom[j], i) && valid(rom, rom[i], loc2) then
          Done(if p.variant.swapExchanges then rom[j := rom[i]][i := rom[j]] else rom[i := rom[j]][j := rom[j]], drawn, true)
        else Done(rom, drawn, false)
    else if p.kind.Random? then
      var (b, used) := RandomTry(rom, i, valid, draw, drawn, 0);
      if b.Some? then Done(rom[i := b.value], used, true) else Done(rom, used, false)
    else if p.kind.Add? && p.variant.addReadsTarget then
      if j >= |rom| then Fault
      else if valid(rom, Wrap8(rom[j] + p.value), i) then Done(rom[i := PointOp(Add, p.value, rom[i])], drawn, true)
      else Done(rom, drawn, false)
    else
      var b := PointOp(p.kind, p.value, rom[i]);
      if valid(rom, b, i) then Done(rom[i := b], drawn, true) else Done(rom, drawn, false)
  }

  /** The state after a pass: the ROM, the draws used, the corruption count,
    * and whether an undefined read cut it short. */
  datatype Outcome = Outcome(rom: seq<byte>, drawn: nat, hits: nat, fault: bool)

  /** The for loop from i on. */
  function Run(rom: seq<byte>, i: nat, p: Pass, valid: Validator, draw: nat -> byte, drawn: nat, hits: nat): (r: Outcome)
    requires Terminates(p)
    ensures |r.rom| == |rom|
    ensures hits <= r.hits
    ensures drawn <= r.drawn
    decreases p.limit - i
  {
    if i >= p.limit then Outcome(rom, drawn, hits, false)
    else match Apply(rom, i, p, valid, draw, drawn)
      case Break => Outcome(rom, drawn, hits, false)
      case Fault => Outcome(rom, drawn, hits, true)
      case Done(next, used, hit) =>
        Run(next, Wrap32(i + p.step), p, valid, draw, used, hits + (if hit then 1 else 0))
  }

  /** Position k is one the loop visits from i on. */
  predicate Strided(k: nat, i: nat, p: Pass)
  {
    p.step > 0 && i <= k < p.limit && (k - i) % p.step == 0
  }

  /** Past position i, the positions visited from i are those visited from i + step. */
  lemma StridedShift(k: nat, i: nat, p: Pass)
    requires p.step > 0 && k != i
    ensures Strided(k, i + p.step, p) == Strided(k, i, p)
  {
    var s := p.step;
    if k > i {
      if (k - i) % s == 0 {
        assert k - i >= s;
        assert (k - i - s) % s == 0 by {
          ModStep(k - i - s, s);
        }
      } else if k >= i + s {
        ModStep(k - i - s, s);
      }
    }
  }

  lemma ModStep(x: nat, s: nat)
    requires s > 0
    ensures (x + s) % s == x % s
  {
    var q, r := x / s, x % s;
    assert (q + 1) * s + r == x + s;
    Util.DivModOf(q + 1, r, s);
  }

  /** Apart from an exchanging Swap, which also moves a byte to i + value, a
    * pass changes only the positions it visits (the copying Swap writes
    * rom[i + value] back where it was). */
  lemma {:induction false} RunFrame(rom: seq<byte>, i: nat, p: Pass, valid: Validator, draw: nat -> byte, drawn: nat, hits: nat, k: nat)
    requires Terminates(p) && (!p.kind.Swap? || !p.variant.swapExchanges)
    requires k < |rom| && !Strided(k, i, p)
    ensures Run(rom, i, p, valid, draw, drawn, hits).rom[k] == rom[k]
    decreases p.limit - i
  {
    if i < p.limit {
      match Apply(rom, i, p, valid, draw, drawn)
      case Break =>
      case Fault =>
      case Done(next, used, hit) =>
        assert k != i;
        ApplyFrame(rom, i, p, valid, draw, drawn, k);
        StridedShift(k, i, p);
        RunDone(rom, i, p, valid, draw, drawn, hits, next, used, hit);
        RunFrame(next, i + p.step, p, valid, draw, used, hits + (if hit then 1 else 0), k);
    }
  }

  /** One step leaves k alone unless k is i (or the target of an exchange). */
  lemma ApplyFrame(rom: seq<byte>, i: nat, p: Pass, valid: Validator, draw: nat -> byte, drawn: nat, k: nat)
    requires !p.kind.Swap? || !p.variant.swapExchanges
    requires k < |rom| && k != i && Apply(rom, i, p, valid, draw, drawn).Done?
    ensures Apply(rom, i, p, valid, draw, drawn).rom[k] == rom[k]
  {
  }

  /** Every byte accepted, a corruption that looks only at rom[i] rewrites
    * exactly the visited positions, each once. */
  lemma {:induction false} RunPointwise(rom: seq<byte>, i: nat, p: Pass, draw: nat -> byte, drawn: nat, hits: nat, k: nat)
    requires Terminates(p) && IsPointwise(p.kind) && !p.variant.addReadsTarget
    requires p.limit <= |rom| && k < |rom|
    ensures Run(rom, i, p, AlwaysValid(), draw, drawn, hits).rom[k] ==
      if Strided(k, i, p) then PointOp(p.kind, p.value, rom[k]) else rom[k]
    decreases p.limit - i
  {
    if i < p.limit {
      var next := rom[i := PointOp(p.kind, p.value, rom[i])];
      ApplyPointwise(rom, i, p, draw, drawn, next);
      RunDone(rom, i, p, AlwaysValid(), draw, drawn, hits, next, drawn, true);
      RunPointwise(next, i + p.step, p, draw, drawn, hits + 1, k);
      if k != i {
        StridedShift(k, i, p);
      }
    }
  }

  /** Every byte accepted, the body rewrites rom[i] and nothing else. */
  lemma ApplyPointwise(rom: seq<byte>, i: nat, p: Pass, draw: nat -> byte, drawn: nat, next: seq<byte>)
    requires IsPointwise(p.kind) && !p.variant.addReadsTarget && i < |rom|
    requires next == rom[i := PointOp(p.kind, p.value, rom[i])]
    ensures Apply(rom, i, p, AlwaysValid(), draw, drawn) == Done(next, drawn, true)
  {
  }

  /** A valid_byte that accepts every byte makes the same pass as none. */
  lemma {:induction false} RunAcceptAll(rom: seq<byte>, i: nat, p: Pass, valid: Validator, draw: nat -> byte, drawn: nat, hits: nat)
    requires Terminates(p) && forall r, b, l :: valid(r, b, l)
    ensures Run(rom, i, p, valid, draw, drawn, hits) == Run(rom, i, p, AlwaysValid(), draw, drawn, hits)
    decreases p.limit - i
  {
    if i < p.limit {
      ApplyAcceptAll(rom, i, p, valid, draw, drawn);
      match Apply(rom, i, p, valid, draw, drawn)
      case Break =>
      case Fault =>
      case Done(next, used, hit) =>
        RunDone(rom, i, p, valid, draw, drawn, hits, next, used, hit);
        RunDone(rom, i, p, AlwaysValid(), draw, drawn, hits, next, used, hit);
        RunAcceptAll(next, i + p.step, p, valid, draw, used, hits + (if hit then 1 else 0));
    }
  }

  /** One step of a pass whose valid_byte accepts every byte. */
  lemma ApplyAcceptAll(rom: seq<byte>, i: nat, p: Pass, valid: Validator, draw: nat -> byte, drawn: nat)
    requires forall r, b, l :: valid(r, b, l)
    ensures Apply(rom, i, p, valid, draw, drawn) == Apply(rom, i, p, AlwaysValid(), draw, drawn)
  {
    assert RandomTry(rom, i, valid, draw, drawn, 0) == (Some(draw(drawn)), drawn + 1);
    assert RandomTry(rom, i, AlwaysValid(), draw, drawn, 0) == (Some(draw(drawn)), drawn + 1);
  }

  /** A pass of the loop that applies its body: the rest of the loop from i + step. */
  lemma RunDone(rom: seq<byte>, i: nat, p: Pass, valid: Validator, draw: nat -> byte, drawn: nat, hits: nat,
                next: seq<byte>, used: nat, hit: bool)
    requires Terminates(p) && i < p.limit && Apply(rom, i, p, valid, draw, drawn) == Done(next, used, hit)
    ensures Run(rom, i, p, valid, draw, drawn, hits) == Run(next, i + p.step, p, valid, draw, used, hits + (if hit then 1 else 0))
  {
    assert Wrap32(i + p.step) == i + p.step;
  }

  /** The corruptions that undo themselves, value for value. */
  predicate Undoes(first: CorruptionType, second: CorruptionType)
  {
    (first == RotateLeft && second == RotateRight) ||
    (first == RotateRight && second == RotateLeft) ||
    (first == LogicalXor && second == LogicalXor) ||
    (first == LogicalComplement && second == LogicalComplement)
  }

  lemma PointOpUndo(first: CorruptionType, second: CorruptionType, v: u32, x: byte)
    requires Undoes(first, second)
    ensures PointOp(second, v, PointOp(first, v, x)) == x
  {
    if first == RotateLeft || first == RotateRight {
      Util.RorUndoesRol(x, v);
    } else if first == LogicalXor {
      Bits.XorTwice(x, v % 0x100);
    }
  }

  /** Rotating left then right by the same count, xor-ing twice with the same
    * value, or complementing twice, over the same positions with every byte
    * accepted, gives back the ROM. */
  lemma RunUndo(rom: seq<byte>, start: nat, p: Pass, q: Pass, draw: nat -> byte)
    requires Terminates(p) && p.limit <= |rom| && !p.variant.addReadsTarget
    requires q == p.(kind := q.kind) && Undoes(p.kind, q.kind)
    ensures Run(Run(rom, start, p, AlwaysValid(), draw, 0, 0).rom, start, q, AlwaysValid(), draw, 0, 0).rom == rom
  {
    var mid := Run(rom, start, p, AlwaysValid(), draw, 0, 0).rom;
    var last := Run(mid, start, q, AlwaysValid(), draw, 0, 0).rom;
    forall k | 0 <= k < |rom| ensures last[k] == rom[k] {
      RunPointwise(rom, start, p, draw, 0, 0, k);
      RunPointwise(mid, start, q, draw, 0, 0, k);
      if Strided(k, start, p) {
        PointOpUndo(p.kind, q.kind, p.value, rom[k]);
      }
    }
  }

  /** How many positions the loop visits from i on. */
  function Visits(i: nat, p: Pass): (n: nat)
    requires p.step > 0
    ensures n == if i >= p.limit then 0 else (p.limit - i - 1) / p.step + 1
    decreases p.limit - i
  {
    if i >= p.limit then 0
    else
      var rest := Visits(i + p.step, p);
      DivStep(p.limit - i - 1, p.step);
      1 + rest
  }

  lemma DivStep(x: nat, s: nat)
    requires s > 0
    ensures x >= s ==> (x - s) / s + 1 == x / s
    ensures x < s ==> x / s == 0
  {
    if x >= s {
      var q, r := (x - s) / s, (x - s) % s;
      assert (q + 1) * s + r == x;
      Util.DivModOf(q + 1, r, s);
    }
  }

  /** A loop that tests i + value against the size and reads rom[i + value]
    * only for Shift and Swap never reads past the end while its bound is
    * within the ROM. */
  lemma {:induction false} NoFault(rom: seq<byte>, i: nat, p: Pass, valid: Validator, draw: nat -> byte, drawn: nat, hits: nat)
    requires Terminates(p) && p.variant.guarded && !p.variant.addReadsTarget && p.limit <= |rom|
    ensures !Run(rom, i, p, valid, draw, drawn, hits).fault
    decreases p.limit - i
  {
    if i < p.limit {
      match Apply(rom, i, p, valid, draw, drawn)
      case Break =>
      case Fault =>
      case Done(next, used, hit) =>
        NoFault(next, Wrap32(i + p.step), p, valid, draw, used, hits + (if hit then 1 else 0));
    }
  }

  /** A guarded Shift or Swap never reads past the end, whatever its bound:
    * an index past the ROM has its partner past it too (i + value does not
    * wrap below the bound), so the test on i + value skips it. */
  lemma {:induction false} MovesNoFault(rom: seq<byte>, i: nat, p: Pass, valid: Validator, draw: nat -> byte, drawn: nat, hits: nat)
    requires Terminates(p) && p.variant.guarded && (p.kind.Shift? || p.kind.Swap?) && p.limit + p.value <= 0x1_0000_0000
    ensures !Run(rom, i, p, valid, draw, drawn, hits).fault
    decreases p.limit - i
  {
    if i < p.limit {
      match Apply(rom, i, p, valid, draw, drawn)
      case Break =>
      case Fault =>
        assert Wrap32(i + p.value) == i + p.value;
      case Done(next, used, hit) =>
        MovesNoFault(next, Wrap32(i + p.step), p, valid, draw, used, hits + (if hit then 1 else 0));
    }
  }

  /** With every byte accepted, a corruption that does not look past i
    * commits at every visited position: the count grows by the number of
    * visits, and Random draws exactly one byte per visit. */
  lemma {:induction false} EveryVisitCounts(rom: seq<byte>, i: nat, p: Pass, draw: nat -> byte, drawn: nat, hits: nat)
    requires Terminates(p) && p.step > 0 && p.limit <= |rom| && !p.variant.addReadsTarget
    requires IsPointwise(p.kind) || p.kind.Random?
    ensures Run(rom, i, p, AlwaysValid(), draw, drawn, hits).hits == hits + Visits(i, p)
    ensures Run(rom, i, p, AlwaysValid(), draw, drawn, hits).drawn == drawn + (if p.kind.Random? then Visits(i, p) else 0)
    decreases p.limit - i
  {
    if i < p.limit {
      AlwaysCommits(rom, i, p, draw, drawn);
      var act := Apply(rom, i, p, AlwaysValid(), draw, drawn);
      var next, used, i', hits' := act.rom, act.drawn, i + p.step, hits + 1;
      assert Wrap32(i + p.step) == i';
      EveryVisitCounts(next, i', p, draw, used, hits');
      assert Run(rom, i, p, AlwaysValid(), draw, drawn, hits) == Run(next, i', p, AlwaysValid(), draw, used, hits');
    }
  }

  lemma AlwaysCommits(rom: seq<byte>, i: nat, p: Pass, draw: nat -> byte, drawn: nat)
    requires i < |rom| && !p.variant.addReadsTarget && (IsPointwise(p.kind) || p.kind.Random?)
    ensures var act := Apply(rom, i, p, AlwaysValid(), draw, drawn);
      act.Done? && act.hit && act.drawn == if p.kind.Random? then drawn + 1 else drawn
  {
  }

  /** A loop that asks valid_byte about each byte it writes, at the place it
    * writes it. Add in the NES variant asks about a different byte, and an
    * exchanging Swap must ask about rom[i] at i + value. */
  predicate AsksAboutWrites(p: Pass)
  {
    !(p.kind.Add? && p.variant.addReadsTarget) && (p.variant.swapExchanges ==> p.variant.swapCheckTarget)
  }

  /** What valid_byte promises about every byte it accepts at a location. */
  ghost predicate Promises(valid: Validator, good: (byte, nat) -> bool)
  {
    forall rom, b, loc :: valid(rom, b, loc) ==> good(b, loc)
  }

  /** A byte the loop body changes is one valid_byte accepted there, in the ROM
    * as it stood before the body ran. */
  lemma ApplyAsked(rom: seq<byte>, i: nat, p: Pass, valid: Validator, draw: nat -> byte, drawn: nat, k: nat)
    requires AsksAboutWrites(p)
    requires Apply(rom, i, p, valid, draw, drawn).Done? && k < |rom|
    requires Apply(rom, i, p, valid, draw, drawn).rom[k] != rom[k]
    ensures valid(rom, Apply(rom, i, p, valid, draw, drawn).rom[k], k)
  {
    var j := Wrap32(i + p.value);
    if p.kind.Swap? && j < |rom| && k == j && k != i {
      assert valid(rom, rom[i], j);
    }
  }

  lemma ApplyAccepted(rom: seq<byte>, i: nat, p: Pass, valid: Validator, draw: nat -> byte, drawn: nat, good: (byte, nat) -> bool, k: nat)
    requires AsksAboutWrites(p) && Promises(valid, good)
    requires Apply(rom, i, p, valid, draw, drawn).Done? && k < |rom|
    requires Apply(rom, i, p, valid, draw, drawn).rom[k] != rom[k]
    ensures good(Apply(rom, i, p, valid, draw, drawn).rom[k], k)
  {
    ApplyAsked(rom, i, p, valid, draw, drawn, k);
  }

  /** Every position a pass changes holds a byte valid_byte accepted there, so
    * whatever valid_byte promises about the bytes it accepts holds of every
    * byte the pass leaves changed. */
  lemma {:induction false} RunAccepted(rom: seq<byte>, i: nat, p: Pass, valid: Validator, draw: nat -> byte, drawn: nat, hits: nat,
                                       good: (byte, nat) -> bool, k: nat)
    requires Terminates(p) && AsksAboutWrites(p) && Promises(valid, good) && k < |rom|
    ensures var out := Run(rom, i, p, valid, draw, drawn, hits).rom; out[k] != rom[k] ==> good(out[k], k)
    decreases p.limit - i
  {
    if i < p.limit {
      match Apply(rom, i, p, valid, draw, drawn)
      case Break =>
      case Fault =>
      case Done(next, used, hit) =>
        var i', hits' := Wrap32(i + p.step), hits + (if hit then 1 else 0);
        RunAccepted(next, i', p, valid, draw, used, hits', good, k);
        if next[k] != rom[k] {
          ApplyAccepted(rom, i, p, valid, draw, drawn, good, k);
        }
    }
  }

  /** valid_byte refuses every write into rom[lo..hi] while those bytes are
    * `frozen` (an instruction it protects, say). */
  ghost predicate Shields(valid: Validator, lo: nat, hi: nat, frozen: seq<byte> -> bool)
  {
    forall rom: seq<byte>, b: byte, loc: nat ::
      hi <= |rom| && lo <= loc < hi && frozen(rom[lo..hi]) ==> !valid(rom, b, loc)
  }

  /** The loop body leaves a shielded window as it was. */
  lemma ApplyShielded(rom: seq<byte>, i: nat, p: Pass, valid: Validator, draw: nat -> byte, drawn: nat,
                      lo: nat, hi: nat, frozen: seq<byte> -> bool)
    requires AsksAboutWrites(p) && Shields(valid, lo, hi, frozen)
    requires lo <= hi <= |rom| && frozen(rom[lo..hi]) && Apply(rom, i, p, valid, draw, drawn).Done?
    ensures Apply(rom, i, p, valid, draw, drawn).rom[lo..hi] == rom[lo..hi]
  {
    var next := Apply(rom, i, p, valid, draw, drawn).rom;
    forall k | lo <= k < hi
      ensures next[k] == rom[k]
    {
      if next[k] != rom[k] {
        ApplyAsked(rom, i, p, valid, draw, drawn, k);
      }
    }
  }

  /** A window valid_byte shields while it is frozen, and that is frozen when
    * the pass begins, comes out of the pass unchanged: no write can thaw it. */
  lemma {:induction false} RunShielded(rom: seq<byte>, i: nat, p: Pass, valid: Validator, draw: nat -> byte, drawn: nat, hits: nat,
                                       lo: nat, hi: nat, frozen: seq<byte> -> bool)
    requires Terminates(p) && AsksAboutWrites(p) && Shields(valid, lo, hi, frozen)
    requires lo <= hi <= |rom| && frozen(rom[lo..hi])
    ensures Run(rom, i, p, valid, draw, drawn, hits).rom[lo..hi] == rom[lo..hi]
    decreases p.limit - i
  {
    if i < p.limit {
      match Apply(rom, i, p, valid, draw, drawn)
      case Break =>
      case Fault =>
      case Done(next, used, hit) =>
        ApplyShielded(rom, i, p, valid, draw, drawn, lo, hi, frozen);
        assert next[lo..hi] == rom[lo..hi];
        var i', hits' := Wrap32(i + p.step), hits + (if hit then 1 else 0);
        RunShielded(next, i', p, valid, draw, used, hits', lo, hi, frozen);
    }
  }

  /** Swap copies rather than exchanges: with step 1 and value 1 over four
    * bytes, each visited byte takes its right neighbour's value, which also
    * stays where it was; the last position has no neighbour and is skipped. */
  lemma SwapCopies(draw: nat -> byte)
    ensures Run([0x10, 0x20, 0x30, 0x40], 0, Pass(Swap, 1, 1, 4, BaseLoop), AlwaysValid(), draw, 0, 0)
         == Outcome([0x20, 0x30, 0x40, 0x40], 0, 3, false)
  {
    var p := Pass(Swap, 1, 1, 4, BaseLoop);
    var v := AlwaysValid();
    RunDone([0x10, 0x20, 0x30, 0x40], 0, p, v, draw, 0, 0, [0x20, 0x20, 0x30, 0x40], 0, true);
    RunDone([0x20, 0x20, 0x30, 0x40], 1, p, v, draw, 0, 1, [0x20, 0x30, 0x30, 0x40], 0, true);
    RunDone([0x20, 0x30, 0x30, 0x40], 2, p, v, draw, 0, 2, [0x20, 0x30, 0x40, 0x40], 0, true);
    RunDone([0x20, 0x30, 0x40, 0x40], 3, p, v, draw, 0, 3, [0x20, 0x30, 0x40, 0x40], 0, false);
  }

  /** The options' loop over the whole ROM, as Corruption::corrupt runs it. */
  function BasePass(info: Info, size: nat, variant: Variant): Pass
  {
    Pass(info.kind, info.value, info.step, if size < info.end then size else info.end, variant)
  }

  /** The state the corruption loops work on: the ROM, mutated in place, and
    * how many bytes have been drawn from the random generator. */
  class Corruption {
    const rom: array<byte>
    var info: Info
    var drawn: nat

    constructor(rom: array<byte>, info: Info, drawn: nat)
      ensures this.rom == rom && this.info == info && this.drawn == drawn
    {
      this.rom := rom;
      this.info := info;
      this.drawn := drawn;
    }

    /** The retry loop of CorruptionType::Random. */
    method TryRandom(i: nat, valid: Validator, draw: nat -> byte) returns (b: Option<byte>)
      modifies this`drawn
      ensures (b, drawn) == RandomTry(rom[..], i, valid, draw, old(drawn), 0)
    {
      ghost var cur := rom[..];
      ghost var want := RandomTry(cur, i, valid, draw, drawn, 0);
      var retry := 0;
      while retry < 100
        invariant 0 <= retry <= 100
        invariant RandomTry(cur, i, valid, draw, drawn, retry) == want
        decreases 100 - retry
      {
        var r := draw(drawn);
        drawn := drawn + 1;
        if valid(rom[..], r, i) {
          return Some(r);
        }
        retry := retry + 1;
      }
      return None;
    }

    /** The loop body at i. */
    method CorruptAt(i: nat, p: Pass, valid: Validator, draw: nat -> byte) returns (act: Act)
      modifies rom, this`drawn
      ensures act == Apply(old(rom[..]), i, p, valid, draw, old(drawn))
      ensures act.Done? ==> rom[..] == act.rom && drawn == act.drawn
      ensures !act.Done? ==> rom[..] == old(rom[..]) && drawn == old(drawn)
    {
      ghost var before := rom[..];
      var j := Wrap32(i + p.value);
      if p.kind == Unset {
        return Break;
      }
      if (p.kind.Shift? || p.kind.Swap?) && p.variant.guarded && j >= rom.Length {
        return Done(rom[..], drawn, false);
      }
      if i >= rom.Length {
        return Fault;
      }
      if p.kind.Shift? || p.kind.Swap? {
        if j >= rom.Length {
          return Fault;
        }
        var hit := false;
        if p.kind.Shift? {
          if valid(rom[..], rom[j], i) {
            rom[i] := rom[j];
            hit := true;
          }
        } else {
          var loc2 := if p.variant.swapCheckTarget then j else i;
          if valid(rom[..], rom[j], i) && valid(rom[..], rom[i], loc2) {
            var temp := rom[j];
            if p.variant.swapExchanges {
              rom[j] := rom[i];
              rom[i] := temp;
            } else {
              rom[i] := temp;
              rom[j] := temp;
            }
            hit := true;
          }
        }
        return Done(rom[..], drawn, hit);
      }
      if p.kind.Random? {
        var b := TryRandom(i, valid, draw);
        if b.Some? {
          rom[i] := b.value;
        }
        return Done(rom[..], drawn, b.Some?);
      }
      var hit := false;
      if p.kind.Add? && p.variant.addReadsTarget {
        if j >= rom.Length {
          return Fault;
        }
        if valid(rom[..], Wrap8(rom[j] + p.value), i) {
          rom[i] := PointOp(Add, p.value, rom[i]);
          hit := true;
        }
      } else {
        var b := PointOp(p.kind, p.value, rom[i]);
        if valid(rom[..], b, i) {
          rom[i] := b;
          hit := true;
        }
      }
      return Done(rom[..], drawn, hit);
    }

    /** The for loop of one pass from `start`. */
    method RunPass(start: nat, p: Pass, valid: Validator, draw: nat -> byte) returns (corruptions: nat, fault: bool)
      requires Terminates(p)
      modifies rom, this`drawn
      ensures var o := Run(old(rom[..]), start, p, valid, draw, old(drawn), 0);
        rom[..] == o.rom && drawn == o.drawn && corruptions == o.hits && fault == o.fault
    {
      var i := start;
      corruptions := 0;
      fault := false;
      ghost var want := Run(old(rom[..]), start, p, valid, draw, old(drawn), 0);
      while i < p.limit
        invariant Run(rom[..], i, p, valid, draw, drawn, corruptions) == want
        decreases p.limit - i
      {
        var act := CorruptAt(i, p, valid, draw);
        if act.Break? {
          return;
        }
        if act.Fault? {
          fault := true;
          return;
        }
        if act.hit {
          corruptions := corruptions + 1;
        }
        i := Wrap32(i + p.step);
      }
    }

    /** Corruption::corrupt: the options' pass over the whole ROM. */
    method Corrupt(valid: Validator, draw: nat -> byte) returns (corruptions: nat)
      requires Terminates(BasePass(info, rom.Length, BaseLoop))
      modifies rom, this`drawn
      ensures var o := Run(old(rom[..]), info.start, BasePass(info, rom.Length, BaseLoop), valid, draw, old(drawn), 0);
        rom[..] == o.rom && drawn == o.drawn && corruptions == o.hits
    {
      var fault;
      corruptions, fault := RunPass(info.start, BasePass(info, rom.Length, BaseLoop), valid, draw);
    }
  }
}
