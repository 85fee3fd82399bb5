/**
 The decoder for chunked bodies.

 The specification is an automaton that reads one byte at a time (`Step`, `Run`).  The class works
 as the C code does: in place, with a read and a write cursor, moving whole stretches of chunk data,
 and keeping its position in the grammar between calls.
 */
module ChunkedDecoder {
  import opened Bytes

  datatype Phase = ChunkSize | ChunkExt | ChunkData | ChunkCrlf | TrailersLineHead | TrailersLineMiddle

  /** The fields of the decoder that change while it runs. */
  datatype Control = Control(left: nat, hexCount: nat, phase: Phase)

  const ZeroFilled: Control := Control(0, 0, ChunkSize)
  const MAX_HEX_DIGITS: nat := 16

  function DecodeHex(ch: int): (v: int)
    ensures -1 <= v < 16
  {
    if 0x30 <= ch <= 0x39 then ch - 0x30
    else if 0x41 <= ch <= 0x46 then ch - 0x41 + 0xa
    else if 0x61 <= ch <= 0x66 then ch - 0x61 + 0xa
    else -1
  }

  function Pow16(n: nat): (p: nat)
    ensures p >= 1
  {
    if n == 0 then 1 else 16 * Pow16(n - 1)
  }

  /** What every reachable decoder satisfies; in particular the size accumulator is below
      16 to the number of digits read, so the 64-bit multiplication never wraps. */
  ghost predicate ValidControl(c: Control) {
    && c.left < SIZE_MODULUS
    && c.hexCount <= MAX_HEX_DIGITS
    && (c.phase == ChunkSize ==> c.left < Pow16(c.hexCount))
    && (c.phase != ChunkSize ==> c.hexCount == 0)
    && (c.phase == ChunkData ==> c.left > 0)
    && (c.phase in {ChunkCrlf, TrailersLineHead, TrailersLineMiddle} ==> c.left == 0)
  }

  // ----- The one-byte automaton -----

  /** What one byte does: it is consumed (emitting output), it ends the body, or it is refused
      and stays unread. */
  datatype Effect =
    | Consume(next: Control, emitted: seq<Byte>)
    | Finish(last: Control)
    | Refuse(at: Control)

  function SizeStep(c: Control, consumeTrailer: bool, b: Byte): Effect {
    var v := DecodeHex(b);
    if v == -1 then
      if c.hexCount == 0 then Refuse(c)
      else ExtStep(c.(hexCount := 0, phase := ChunkExt), consumeTrailer, b)
    else if c.hexCount == MAX_HEX_DIGITS then Refuse(c)
    else Consume(c.(left := (c.left * 16 + v) % SIZE_MODULUS, hexCount := c.hexCount + 1), [])
  }

  function ExtStep(c: Control, consumeTrailer: bool, b: Byte): Effect {
    if b != LF then Consume(c, [])
    else if c.left > 0 then Consume(c.(phase := ChunkData), [])
    else if consumeTrailer then Consume(c.(phase := TrailersLineHead), [])
    else Finish(c)
  }

  function Step(c: Control, consumeTrailer: bool, b: Byte): Effect {
    match c.phase
    case ChunkSize => SizeStep(c, consumeTrailer, b)
    case ChunkExt => ExtStep(c, consumeTrailer, b)
    case ChunkData =>
      if c.left <= 1 then Consume(c.(left := 0, phase := ChunkCrlf), [b])
      else Consume(c.(left := c.left - 1), [b])
    case ChunkCrlf =>
      if b == CR then Consume(c, [])
      else if b == LF then Consume(c.(phase := ChunkSize), [])
      else Refuse(c)
    case TrailersLineHead =>
      if b == CR then Consume(c, [])
      else if b == LF then Finish(c)
      else Consume(c.(phase := TrailersLineMiddle), [])
    case TrailersLineMiddle =>
      if b == LF then Consume(c.(phase := TrailersLineHead), []) else Consume(c, [])
  }

  datatype Verdict = Incomplete | Complete | Invalid

  /** The outcome of a whole input: the final fields, the decoded bytes and the unread tail. */
  datatype Outcome = Outcome(control: Control, out: seq<Byte>, rest: seq<Byte>, verdict: Verdict) {
    function Prepend(before: seq<Byte>): Outcome {
      this.(out := before + out)
    }

    /** The return value of the C function. */
    function Code(): int {
      match verdict
      case Incomplete => -2
      case Complete => |rest|
      case Invalid => -1
    }
  }

  function Run(c: Control, consumeTrailer: bool, input: seq<Byte>): Outcome
    decreases input
  {
    if input == [] then Outcome(c, [], [], Incomplete)
    else
      match Step(c, consumeTrailer, input[0])
      case Consume(next, emitted) =>
        Run(next, consumeTrailer, input[1..]).Prepend(emitted)
      case Finish(last) => Outcome(last, [], input[1..], Complete)
      case Refuse(at) => Outcome(at, [], input, Invalid)
  }

  // ----- Invariants of the automaton -----

  lemma {:induction false} Pow16Bound(n: nat)
    requires n <= MAX_HEX_DIGITS
    ensures Pow16(n) <= SIZE_MODULUS
    ensures n < MAX_HEX_DIGITS ==> 16 * Pow16(n) <= SIZE_MODULUS
  {
    Pow16Monotone(n, MAX_HEX_DIGITS);
    if n < MAX_HEX_DIGITS {
      Pow16Monotone(n + 1, MAX_HEX_DIGITS);
    }
    Pow16Of16();
  }

  lemma {:induction false} Pow16Monotone(m: nat, n: nat)
    requires m <= n
    ensures Pow16(m) <= Pow16(n)
    decreases n
  {
    if m < n {
      Pow16Monotone(m, n - 1);
    }
  }

  lemma Pow16Of16()
    ensures Pow16(16) == SIZE_MODULUS
  {
    assert Pow16(4) == 0x1_0000;
    assert Pow16(8) == 0x1_0000_0000;
    assert Pow16(12) == 0x1_0000_0000_0000;
  }

  /** A size digit never overflows the 64-bit accumulator. */
  lemma SizeNeverWraps(c: Control, v: nat)
    requires ValidControl(c) && c.phase == ChunkSize && c.hexCount < MAX_HEX_DIGITS && v < 16
    ensures c.left * 16 + v < Pow16(c.hexCount + 1) <= SIZE_MODULUS
    ensures (c.left * 16 + v) % SIZE_MODULUS == c.left * 16 + v
  {
    var p := Pow16(c.hexCount);
    assert c.left + 1 <= p;
    assert Pow16(c.hexCount + 1) == 16 * p;
    Pow16Bound(c.hexCount + 1);
  }

  lemma SizeStepKeepsValid(c: Control, consumeTrailer: bool, b: Byte)
    requires ValidControl(c) && c.phase == ChunkSize
    ensures ValidEffect(SizeStep(c, consumeTrailer, b))
  {
    hide Pow16;
    var v := DecodeHex(b);
    if v != -1 && c.hexCount < MAX_HEX_DIGITS {
      SizeNeverWraps(c, v);
    }
  }

  ghost predicate ValidEffect(e: Effect) {
    match e
    case Consume(next, _) => ValidControl(next)
    case Finish(last) => ValidControl(last)
    case Refuse(at) => ValidControl(at)
  }

  /** Every step keeps the invariant, whatever the byte. */
  lemma StepKeepsValid(c: Control, consumeTrailer: bool, b: Byte)
    requires ValidControl(c)
    ensures ValidEffect(Step(c, consumeTrailer, b))
  {
    if c.phase == ChunkSize {
      SizeStepKeepsValid(c, consumeTrailer, b);
    }
  }

  lemma {:induction false} RunKeepsValid(c: Control, consumeTrailer: bool, input: seq<Byte>)
    requires ValidControl(c)
    ensures ValidControl(Run(c, consumeTrailer, input).control)
    decreases input
  {
    if input != [] {
      StepKeepsValid(c, consumeTrailer, input[0]);
      match Step(c, consumeTrailer, input[0])
      case Consume(next, _) => RunKeepsValid(next, consumeTrailer, input[1..]);
      case _ =>
    }
  }

  /** The unread bytes are a tail of the input, and the output fits in front of them: this is why
      the decoder can work in place. */
  lemma {:induction false} OutputFitsBeforeRest(c: Control, ct: bool, input: seq<Byte>)
    ensures var r := Run(c, ct, input);
            && |r.out| + |r.rest| <= |input|
            && r.rest == input[|input| - |r.rest|..]
            && (r.verdict == Incomplete ==> r.rest == [])
    decreases input
  {
    if input != [] {
      match Step(c, ct, input[0])
      case Consume(next, emitted) => OutputFitsBeforeRest(next, ct, input[1..]);
      case _ =>
    }
  }

  // ----- Independence from fragmentation -----

  /** Reading `a + b` is reading `a` and, if the body has not ended there, reading `b` from the saved
      fields; otherwise `b` only lengthens the unread tail. */
  lemma {:induction false} RunSplit(c: Control, ct: bool, a: seq<Byte>, b: seq<Byte>)
    ensures var r := Run(c, ct, a);
            Run(c, ct, a + b) ==
            if r.verdict == Incomplete then Run(r.control, ct, b).Prepend(r.out) else r.(rest := r.rest + b)
    decreases a
  {
    hide Step;
    if a == [] {
      assert a + b == b;
    } else {
      assert (a + b)[1..] == a[1..] + b;
      match Step(c, ct, a[0])
      case Consume(next, emitted) =>
        RunSplit(next, ct, a[1..], b);
        var r := Run(next, ct, a[1..]);
        assert emitted + (r.out + Run(r.control, ct, b).out) == (emitted + r.out) + Run(r.control, ct, b).out;
      case _ =>
    }
  }

  /** The application's loop: one call per fragment while the decoder reports -2. */
  function RunFragments(c: Control, ct: bool, fragments: seq<seq<Byte>>): Outcome
    decreases fragments
  {
    if fragments == [] then Outcome(c, [], [], Incomplete)
    else
      var r := Run(c, ct, fragments[0]);
      if r.verdict == Incomplete then RunFragments(r.control, ct, fragments[1..]).Prepend(r.out)
      else r.(rest := r.rest + Concat(fragments[1..]))
  }

  /** Every way of cutting the input gives the outcome of a single call on the whole. */
  lemma {:induction false} FragmentationIrrelevant(c: Control, ct: bool, fragments: seq<seq<Byte>>)
    ensures RunFragments(c, ct, fragments) == Run(c, ct, Concat(fragments))
    decreases fragments
  {
    if fragments != [] {
      RunSplit(c, ct, fragments[0], Concat(fragments[1..]));
      var r := Run(c, ct, fragments[0]);
      if r.verdict == Incomplete {
        FragmentationIrrelevant(r.control, ct, fragments[1..]);
      }
    }
  }

  // ----- Bulk reading -----

  function AfterData(c: Control, k: nat): Control
    requires k <= c.left
  {
    if k == c.left then c.(left := 0, phase := ChunkCrlf) else c.(left := c.left - k)
  }

  /** A stretch of chunk data passes through unchanged. */
  lemma {:induction false} RunData(c: Control, ct: bool, data: seq<Byte>)
    requires c.phase == ChunkData && 0 < |data| <= c.left
    ensures Run(c, ct, data) == Outcome(AfterData(c, |data|), data, [], Incomplete)
    decreases data
  {
    var next := AfterData(c, 1);
    assert Step(c, ct, data[0]) == Consume(next, [data[0]]);
    if |data| == 1 {
      assert data[1..] == [];
      assert data == [data[0]] + [];
    } else {
      RunData(next, ct, data[1..]);
      assert data == [data[0]] + data[1..];
    }
  }

  /** Midway through a call: with `src` bytes read and `out` decoded, what is still to come
      completes the outcome `goal`. */
  ghost predicate Ahead(c: Control, ct: bool, input: seq<Byte>, src: nat, out: seq<Byte>, goal: Outcome)
    requires src <= |input|
  {
    ValidControl(c) && Run(c, ct, input[src..]).Prepend(out) == goal
  }

  lemma AheadStart(c: Control, ct: bool, input: seq<Byte>)
    requires ValidControl(c)
    ensures Ahead(c, ct, input, 0, [], Run(c, ct, input))
  {
    assert input[0..] == input;
    assert [] + Run(c, ct, input).out == Run(c, ct, input).out;
  }

  /** One byte, seen from inside a call. */
  lemma AheadStep(c: Control, ct: bool, input: seq<Byte>, src: nat, out: seq<Byte>, goal: Outcome)
    requires src < |input| && Ahead(c, ct, input, src, out, goal)
    ensures match Step(c, ct, input[src])
            case Consume(next, emitted) => emitted == [] ==> Ahead(next, ct, input, src + 1, out, goal)
            case Finish(last) => ValidControl(last) && goal == Outcome(last, out, input[src + 1..], Complete)
            case Refuse(at) => ValidControl(at) && goal == Outcome(at, out, input[src..], Invalid)
  {
    StepKeepsValid(c, ct, input[src]);
    assert input[src..][0] == input[src];
    assert input[src..][1..] == input[src + 1..];
    assert out + [] == out;
    match Step(c, ct, input[src])
    case Consume(next, emitted) =>
      if emitted == [] {
        assert [] + Run(next, ct, input[src + 1..]).out == Run(next, ct, input[src + 1..]).out;
      }
    case _ =>
  }

  /** A size line's first byte that is not a digit is left for the extension to read. */
  lemma AheadExtension(c: Control, ct: bool, input: seq<Byte>, src: nat, out: seq<Byte>, goal: Outcome)
    requires src < |input| && Ahead(c, ct, input, src, out, goal)
    requires c.phase == ChunkSize && DecodeHex(input[src]) == -1 && c.hexCount != 0
    ensures Ahead(c.(hexCount := 0, phase := ChunkExt), ct, input, src, out, goal)
  {
    assert input[src..][0] == input[src];
    var next := c.(hexCount := 0, phase := ChunkExt);
    assert Step(c, ct, input[src]) == Step(next, ct, input[src]);
  }

  /** A stretch of data, seen from inside a call. */
  lemma AheadData(c: Control, ct: bool, input: seq<Byte>, src: nat, k: nat, out: seq<Byte>, goal: Outcome)
    requires src + k <= |input| && Ahead(c, ct, input, src, out, goal)
    requires c.phase == ChunkData && k <= c.left
    ensures Ahead(AfterData(c, k), ct, input, src + k, out + input[src..src + k], goal)
  {
    hide Run;
    var data, rest := input[src..src + k], input[src + k..];
    assert input[src..] == data + rest;
    if k == 0 {
      assert out + data == out && data + rest == rest;
    } else {
      RunData(c, ct, data);
      RunSplit(c, ct, data, rest);
      assert out + (data + Run(AfterData(c, k), ct, rest).out) == (out + data) + Run(AfterData(c, k), ct, rest).out;
    }
  }

  lemma AheadLeft(c: Control, ct: bool, input: seq<Byte>, src: nat, out: seq<Byte>, goal: Outcome)
    requires src <= |input| && Ahead(c, ct, input, src, out, goal) && c.phase == ChunkData
    ensures 0 < c.left
  {
  }

  /** The end of the buffer. */
  lemma AheadEnd(c: Control, ct: bool, input: seq<Byte>, out: seq<Byte>, goal: Outcome)
    requires Ahead(c, ct, input, |input|, out, goal)
    ensures ValidControl(c) && goal == Outcome(c, out, input[|input|..], Incomplete)
  {
    assert out + [] == out;
    assert input[|input|..] == [];
  }

  /** `memmove` towards the front of the buffer; a move onto itself is skipped, as in the source. */
  method MoveDown(buf: array<Byte>, dst: nat, src: nat, n: nat)
    requires dst <= src && src + n <= buf.Length
    modifies buf
    ensures buf[..dst + n] == old(buf[..dst] + buf[src..src + n])
    ensures forall i :: dst + n <= i < buf.Length ==> buf[i] == old(buf[i])
  {
    if dst != src {
      forall i | 0 <= i < n {
        buf[dst + i] := buf[src + i];
      }
    }
  }

  /** The decoder; `consumeTrailer` is chosen by the application. */
  class Decoder {
    var bytesLeftInChunk: nat
    var consumeTrailer: bool
    var hexCount: nat
    var phase: Phase

    ghost function Fields(): Control
      reads this
    {
      Control(bytesLeftInChunk, hexCount, phase)
    }

    constructor (consumeTrailer: bool)
      ensures Fields() == ZeroFilled && this.consumeTrailer == consumeTrailer
    {
      bytesLeftInChunk, hexCount, phase := 0, 0, ChunkSize;
      this.consumeTrailer := consumeTrailer;
    }

    /** Where a call stands after one of the cases of the state switch: still running, or stopped
        with a verdict before the unread tail is moved down. */
    ghost predicate Stands(input: seq<Byte>, src: nat, out: seq<Byte>, goal: Outcome, more: bool, verdict: Verdict)
      requires src <= |input|
      reads this
    {
      if more then Ahead(Fields(), consumeTrailer, input, src, out, goal)
      else ValidControl(Fields()) && goal == Outcome(Fields(), out, input[src..], verdict)
    }

    /** The bytes of this call from `src` on have not been touched. */
    static ghost predicate Unread(buf: array<Byte>, bufsz: nat, input: seq<Byte>, src: nat)
      reads buf
    {
      && src <= bufsz == |input| <= buf.Length
      && forall i :: src <= i < bufsz ==> buf[i] == input[i]
    }

    method ReadSize(buf: array<Byte>, bufsz: nat, start: nat,
                    ghost input: seq<Byte>, ghost out: seq<Byte>, ghost goal: Outcome)
      returns (src: nat, more: bool, verdict: Verdict)
      requires Unread(buf, bufsz, input, start)
      requires Ahead(Fields(), consumeTrailer, input, start, out, goal) && phase == ChunkSize
      modifies this`bytesLeftInChunk, this`hexCount, this`phase
      ensures start <= src <= |input| && Stands(input, src, out, goal, more, verdict)
      ensures more ==> phase == ChunkExt
    {
      hide Run, ValidControl, Ahead;
      src, more, verdict := start, true, Incomplete;
      while true
        invariant start <= src <= |input| && phase == ChunkSize
        invariant Ahead(Fields(), consumeTrailer, input, src, out, goal)
        decreases bufsz - src
      {
        if src == bufsz {
          AheadEnd(Fields(), consumeTrailer, input, out, goal);
          return src, false, Incomplete;
        }
        AheadStep(Fields(), consumeTrailer, input, src, out, goal);
        var v := DecodeHex(buf[src]);
        if v == -1 {
          if hexCount == 0 {
            return src, false, Invalid;
          }
          break;
        }
        if hexCount == MAX_HEX_DIGITS {
          return src, false, Invalid;
        }
        bytesLeftInChunk := (bytesLeftInChunk * 16 + v) % SIZE_MODULUS;
        hexCount := hexCount + 1;
        src := src + 1;
      }
      AheadExtension(Fields(), consumeTrailer, input, src, out, goal);
      hexCount := 0;
      phase := ChunkExt;
    }

    method ReadExtension(buf: array<Byte>, bufsz: nat, start: nat,
                         ghost input: seq<Byte>, ghost out: seq<Byte>, ghost goal: Outcome)
      returns (src: nat, more: bool, verdict: Verdict)
      requires Unread(buf, bufsz, input, start)
      requires Ahead(Fields(), consumeTrailer, input, start, out, goal) && phase == ChunkExt
      modifies this`phase
      ensures start <= src <= |input| && Stands(input, src, out, goal, more, verdict)
      ensures more ==> start < src
    {
      hide Run, ValidControl, Ahead;
      src, more, verdict := start, true, Incomplete;
      while true
        invariant start <= src <= |input| && phase == ChunkExt
        invariant Ahead(Fields(), consumeTrailer, input, src, out, goal)
        decreases bufsz - src
      {
        if src == bufsz {
          AheadEnd(Fields(), consumeTrailer, input, out, goal);
          return src, false, Incomplete;
        }
        AheadStep(Fields(), consumeTrailer, input, src, out, goal);
        if buf[src] == LF {
          break;
        }
        src := src + 1;
      }
      src := src + 1;
      if bytesLeftInChunk == 0 {
        if consumeTrailer {
          phase := TrailersLineHead;
        } else {
          more, verdict := false, Complete;
        }
      } else {
        phase := ChunkData;
      }
    }

    /** Copies the available part of the chunk down to the write cursor. */
    method ReadData(buf: array<Byte>, bufsz: nat, dst: nat, start: nat,
                    ghost input: seq<Byte>, ghost goal: Outcome)
      returns (k: nat, more: bool)
      requires dst <= start && Unread(buf, bufsz, input, start)
      requires Ahead(Fields(), consumeTrailer, input, start, buf[..dst], goal)
      requires phase == ChunkData && 0 < bytesLeftInChunk
      modifies buf, this`bytesLeftInChunk, this`phase
      ensures start + k <= bufsz && Unread(buf, bufsz, input, start + k)
      ensures Stands(input, start + k, buf[..dst + k], goal, more, Incomplete)
      ensures more ==> 0 < k
      ensures forall i :: dst + k <= i < buf.Length ==> buf[i] == old(buf[i])
    {
      hide Run, ValidControl, Ahead;
      var avail := bufsz - start;
      more := avail >= bytesLeftInChunk;
      k := if more then bytesLeftInChunk else avail;
      ghost var after := AfterData(Fields(), k);
      AheadData(Fields(), consumeTrailer, input, start, k, buf[..dst], goal);
      assert buf[start..start + k] == input[start..start + k];
      MoveDown(buf, dst, start, k);
      if more {
        bytesLeftInChunk := 0;
        phase := ChunkCrlf;
      } else {
        bytesLeftInChunk := bytesLeftInChunk - avail;
        AheadEnd(after, consumeTrailer, input, buf[..dst + k], goal);
      }
      assert Fields() == after;
    }

    method ReadCrlf(buf: array<Byte>, bufsz: nat, start: nat,
                    ghost input: seq<Byte>, ghost out: seq<Byte>, ghost goal: Outcome)
      returns (src: nat, more: bool, verdict: Verdict)
      requires Unread(buf, bufsz, input, start)
      requires Ahead(Fields(), consumeTrailer, input, start, out, goal) && phase == ChunkCrlf
      modifies this`phase
      ensures start <= src <= |input| && Stands(input, src, out, goal, more, verdict)
      ensures more ==> start < src
    {
      hide Run, ValidControl, Ahead;
      src, more, verdict := start, true, Incomplete;
      while true
        invariant start <= src <= |input| && phase == ChunkCrlf
        invariant Ahead(Fields(), consumeTrailer, input, src, out, goal)
        decreases bufsz - src
      {
        if src == bufsz {
          AheadEnd(Fields(), consumeTrailer, input, out, goal);
          return src, false, Incomplete;
        }
        AheadStep(Fields(), consumeTrailer, input, src, out, goal);
        if buf[src] != CR {
          break;
        }
        src := src + 1;
      }
      if buf[src] != LF {
        return src, false, Invalid;
      }
      src := src + 1;
      phase := ChunkSize;
    }

    method ReadTrailerHead(buf: array<Byte>, bufsz: nat, start: nat,
                           ghost input: seq<Byte>, ghost out: seq<Byte>, ghost goal: Outcome)
      returns (src: nat, more: bool, verdict: Verdict)
      requires Unread(buf, bufsz, input, start)
      requires Ahead(Fields(), consumeTrailer, input, start, out, goal) && phase == TrailersLineHead
      modifies this`phase
      ensures start <= src <= |input| && Stands(input, src, out, goal, more, verdict)
      ensures more ==> start < src
    {
      hide Run, ValidControl, Ahead;
      src, more, verdict := start, true, Incomplete;
      while true
        invariant start <= src <= |input| && phase == TrailersLineHead
        invariant Ahead(Fields(), consumeTrailer, input, src, out, goal)
        decreases bufsz - src
      {
        if src == bufsz {
          AheadEnd(Fields(), consumeTrailer, input, out, goal);
          return src, false, Incomplete;
        }
        AheadStep(Fields(), consumeTrailer, input, src, out, goal);
        if buf[src] != CR {
          break;
        }
        src := src + 1;
      }
      src := src + 1;
      if buf[src - 1] == LF {
        return src, false, Complete;
      }
      phase := TrailersLineMiddle;
    }

    method ReadTrailerMiddle(buf: array<Byte>, bufsz: nat, start: nat,
                             ghost input: seq<Byte>, ghost out: seq<Byte>, ghost goal: Outcome)
      returns (src: nat, more: bool, verdict: Verdict)
      requires Unread(buf, bufsz, input, start)
      requires Ahead(Fields(), consumeTrailer, input, start, out, goal) && phase == TrailersLineMiddle
      modifies this`phase
      ensures start <= src <= |input| && Stands(input, src, out, goal, more, verdict)
      ensures more ==> start < src
    {
      hide Run, ValidControl, Ahead;
      src, more, verdict := start, true, Incomplete;
      while true
        invariant start <= src <= |input| && phase == TrailersLineMiddle
        invariant Ahead(Fields(), consumeTrailer, input, src, out, goal)
        decreases bufsz - src
      {
        if src == bufsz {
          AheadEnd(Fields(), consumeTrailer, input, out, goal);
          return src, false, Incomplete;
        }
        AheadStep(Fields(), consumeTrailer, input, src, out, goal);
        if buf[src] == LF {
          break;
        }
        src := src + 1;
      }
      src := src + 1;
      phase := TrailersLineHead;
    }

    /** The state switch: runs its cases until one of them stops the call. */
    method Scan(buf: array<Byte>, bufsz: nat, ghost input: seq<Byte>, ghost goal: Outcome)
      returns (dst: nat, src: nat, verdict: Verdict)
      requires Unread(buf, bufsz, input, 0) && Ahead(Fields(), consumeTrailer, input, 0, [], goal)
      modifies buf, this`bytesLeftInChunk, this`hexCount, this`phase
      ensures dst <= src && Unread(buf, bufsz, input, src)
      ensures Stands(input, src, buf[..dst], goal, false, verdict)
      ensures forall i :: dst <= i < buf.Length ==> buf[i] == old(buf[i])
    {
      hide Run, ValidControl, Ahead;
      dst, src, verdict := 0, 0, Incomplete;
      var more := true;
      assert buf[..0] == [];
      while more
        invariant dst <= src && Unread(buf, bufsz, input, src)
        invariant Stands(input, src, buf[..dst], goal, more, verdict)
        invariant forall i :: dst <= i < buf.Length ==> buf[i] == old(buf[i])
        decreases more, bufsz - src, phase == ChunkSize
      {
        match phase
        case ChunkSize =>
          src, more, verdict := ReadSize(buf, bufsz, src, input, buf[..dst], goal);
        case ChunkExt =>
          src, more, verdict := ReadExtension(buf, bufsz, src, input, buf[..dst], goal);
        case ChunkData =>
          AheadLeft(Fields(), consumeTrailer, input, src, buf[..dst], goal);
          var k;
          k, more := ReadData(buf, bufsz, dst, src, input, goal);
          dst, src, verdict := dst + k, src + k, Incomplete;
        case ChunkCrlf =>
          src, more, verdict := ReadCrlf(buf, bufsz, src, input, buf[..dst], goal);
        case TrailersLineHead =>
          src, more, verdict := ReadTrailerHead(buf, bufsz, src, input, buf[..dst], goal);
        case TrailersLineMiddle =>
          src, more, verdict := ReadTrailerMiddle(buf, bufsz, src, input, buf[..dst], goal);
      }
    }

    /** One call of the decoder: the decoded bytes replace the front of the buffer, the unread tail
        follows them, everything behind that is untouched, and the result, the saved fields and the
        return code are those of the one-byte automaton. */
    method Decode(buf: array<Byte>, bufsz: nat) returns (ret: int, outsz: nat)
      requires bufsz <= buf.Length && ValidControl(Fields())
      modifies buf, this`bytesLeftInChunk, this`hexCount, this`phase
      ensures ValidControl(Fields())
      ensures var r := Run(old(Fields()), consumeTrailer, old(buf[..bufsz]));
              && Fields() == r.control && ret == r.Code()
              && outsz == |r.out| && outsz + |r.rest| <= bufsz
              && buf[..outsz + |r.rest|] == r.out + r.rest
              && forall i :: outsz + |r.rest| <= i < buf.Length ==> buf[i] == old(buf[i])
    {
      hide Run, ValidControl, Ahead;
      ghost var input := buf[..bufsz];
      ghost var goal := Run(Fields(), consumeTrailer, input);
      AheadStart(Fields(), consumeTrailer, input);
      var dst, src, verdict := Scan(buf, bufsz, input, goal);
      assert buf[src..src + (bufsz - src)] == input[src..] == goal.rest;
      MoveDown(buf, dst, src, bufsz - src);
      assert |goal.out| == dst && |goal.rest| == bufsz - src;
      assert buf[..dst + |goal.rest|] == goal.out + goal.rest;
      ret := match verdict
        case Incomplete => -2
        case Complete => bufsz - src
        case Invalid => -1;
      outsz := dst;
    }
  }

  lemma FragmentStep(c: Control, ct: bool, todo: seq<seq<Byte>>, decoded: seq<Byte>, goal: Outcome)
    requires goal == RunFragments(c, ct, todo).Prepend(decoded)
    ensures todo == [] ==> goal.out == decoded && goal.verdict == Incomplete
    ensures todo != [] ==>
              var r := Run(c, ct, todo[0]);
              if r.verdict == Incomplete then
                goal == RunFragments(r.control, ct, todo[1..]).Prepend(decoded + r.out)
              else
                goal.out == decoded + r.out && goal.verdict == r.verdict && goal.rest == r.rest + Concat(todo[1..])
  {
    hide Run;
    if todo == [] {
      assert decoded + [] == decoded;
    } else {
      var r := Run(c, ct, todo[0]);
      var later := RunFragments(r.control, ct, todo[1..]);
      assert decoded + (r.out + later.out) == (decoded + r.out) + later.out;
    }
  }

  /** One call on a buffer that holds one fragment; `tail` is the undecoded end after completion. */
  method Feed(decoder: Decoder, part: seq<Byte>) returns (piece: seq<Byte>, ret: int, tail: seq<Byte>)
    requires ValidControl(decoder.Fields())
    modifies decoder`bytesLeftInChunk, decoder`hexCount, decoder`phase
    ensures ValidControl(decoder.Fields())
    ensures var r := Run(old(decoder.Fields()), decoder.consumeTrailer, part);
            && decoder.Fields() == r.control && piece == r.out && ret == r.Code()
            && tail == if r.verdict == Complete then r.rest else []
  {
    hide Run, ValidControl;
    var buf := new Byte[|part|](i requires 0 <= i < |part| => part[i]);
    assert buf[..|part|] == part;
    var outsz;
    ret, outsz := decoder.Decode(buf, |part|);
    ghost var r := Run(old(decoder.Fields()), decoder.consumeTrailer, part);
    var more := if ret >= 0 then ret else 0;
    piece, tail := buf[..outsz], buf[outsz..outsz + more];
    assert buf[..outsz + |r.rest|][..outsz] == r.out && buf[..outsz + |r.rest|][outsz..] == r.rest;
  }

  /** An application that feeds each arriving fragment to one decoder while it reports -2: whatever
      the fragments, it ends with the output and the code of the whole stream, and on completion the
      undecoded end of the last buffer and the fragments not yet fed are what follows the body. */
  method DecodeFragments(consumeTrailer: bool, fragments: seq<seq<Byte>>)
    returns (decoded: seq<Byte>, ret: int, fed: nat, tail: seq<Byte>)
    ensures fed <= |fragments|
    ensures var r := Run(ZeroFilled, consumeTrailer, Concat(fragments));
            && decoded == r.out
            && (ret == -2 <==> r.verdict == Incomplete) && (ret == -1 <==> r.verdict == Invalid)
            && (r.verdict == Complete ==> ret == |tail| && r.rest == tail + Concat(fragments[fed..]))
  {
    hide Run, RunFragments, ValidControl;
    var decoder := new Decoder(consumeTrailer);
    ZeroFilledIsValid();
    decoded, ret, fed, tail := [], -2, 0, [];
    ghost var goal := RunFragments(ZeroFilled, consumeTrailer, fragments);
    FragmentationIrrelevant(ZeroFilled, consumeTrailer, fragments);
    assert fragments[0..] == fragments;
    assert [] + goal.out == goal.out;
    while ret == -2 && fed < |fragments|
      invariant fed <= |fragments| && decoder.consumeTrailer == consumeTrailer && -2 <= ret
      invariant ValidControl(decoder.Fields()) && fresh(decoder)
      invariant ret == -2 ==>
                  goal == RunFragments(decoder.Fields(), consumeTrailer, fragments[fed..]).Prepend(decoded)
      invariant ret == -1 ==> goal.out == decoded && goal.verdict == Invalid
      invariant ret >= 0 ==>
                  && goal.out == decoded && goal.verdict == Complete
                  && ret == |tail| && goal.rest == tail + Concat(fragments[fed..])
      decreases |fragments| - fed
    {
      FragmentStep(decoder.Fields(), consumeTrailer, fragments[fed..], decoded, goal);
      assert fragments[fed..][1..] == fragments[fed + 1..];
      var piece;
      piece, ret, tail := Feed(decoder, fragments[fed]);
      decoded, fed := decoded + piece, fed + 1;
    }
    if ret == -2 {
      FragmentStep(decoder.Fields(), consumeTrailer, fragments[fed..], decoded, goal);
    }
  }

  lemma ZeroFilledIsValid()
    ensures ValidControl(ZeroFilled)
  {
  }
}
