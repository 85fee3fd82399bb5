/**
 WebSocket frame headers (section 5.2 of RFC 6455): the builder that writes one into a byte array and
 the parser that accepts it in pieces.
 */
module WebsocketHeaders {
  import opened Bytes

  const NPOS: nat := 0xffff_ffff_ffff_ffff
  const MAX_HEADER: nat := 14

  // ----- Flags: opcode in the low four bits, then the final-frame and mask bits -----

  function Opcode(flags: Byte): Byte {
    flags % 16
  }

  predicate HasFin(flags: Byte) {
    flags / 16 % 2 == 1
  }

  predicate HasMask(flags: Byte) {
    flags / 32 % 2 == 1
  }

  function TopBit(set_: bool): Byte {
    if set_ then 128 else 0
  }

  function CalcFrameHeaderSize(flags: Byte, len: nat): nat {
    2 + (if len >= 126 then (if len > 0xffff then 8 else 2) else 0) + (if HasMask(flags) then 4 else 0)
  }

  // ----- What a header is -----

  function BigEndian(n: nat, width: nat): (s: seq<Byte>)
    ensures |s| == width
    decreases width
  {
    if width == 0 then [] else BigEndian(n / 256, width - 1) + [n % 256]
  }

  /** The seven-bit length field and the bytes that extend it. */
  function ShortLength(len: nat): Byte {
    if len < 126 then len else if len <= 0xffff then 126 else 127
  }

  function LongLength(len: nat): seq<Byte> {
    if len < 126 then [] else if len <= 0xffff then BigEndian(len, 2) else BigEndian(len, 8)
  }

  function HeaderBytes(flags: Byte, mask: seq<Byte>, len: nat): seq<Byte> {
    [TopBit(HasFin(flags)) + Opcode(flags), TopBit(HasMask(flags)) + ShortLength(len)] +
    LongLength(len) + (if HasMask(flags) then mask else [])
  }

  /** The announced size is the size of the header, and never more than the builder's array. */
  lemma SizeIsExact(flags: Byte, mask: seq<Byte>, len: nat)
    requires |mask| == 4
    ensures |HeaderBytes(flags, mask, len)| == CalcFrameHeaderSize(flags, len) <= MAX_HEADER
    ensures MAX_HEADER == CalcFrameHeaderSize(32, 0xffff_ffff)
  {
  }

  // ----- The builder -----

  lemma BigEndian2(n: nat)
    requires n <= 0xffff
    ensures BigEndian(n, 2) == [n / 256, n % 256]
  {
    assert BigEndian(n / 256, 1) == BigEndian(n / 256 / 256, 0) + [n / 256 % 256];
  }

  lemma BigEndian4(n: nat)
    ensures BigEndian(n, 4) == [n / 0x100_0000 % 256, n / 0x1_0000 % 256, n / 256 % 256, n % 256]
  {
    var a, b := n / 256, n / 0x1_0000;
    assert a / 256 == b && b / 256 == n / 0x100_0000;
    assert BigEndian(n, 4) == BigEndian(a, 3) + [n % 256];
    assert BigEndian(a, 3) == BigEndian(b, 2) + [a % 256];
    assert BigEndian(b, 2) == BigEndian(b / 256, 1) + [b % 256];
    assert BigEndian(b / 256, 1) == BigEndian(b / 256 / 256, 0) + [b / 256 % 256];
  }

  /** The last four of the bytes are those of the number itself, the others those of its quotient. */
  lemma {:induction false} BigEndianSplit(n: nat, width: nat)
    ensures BigEndian(n, width + 4) == BigEndian(n / 0x1_0000_0000, width) + BigEndian(n, 4)
  {
    var a := n / 256;
    var b := a / 256;
    var c := b / 256;
    var d := c / 256;
    assert d == n / 0x1_0000_0000;
    assert BigEndian(n, width + 4) == BigEndian(a, width + 3) + [n % 256];
    assert BigEndian(a, width + 3) == BigEndian(b, width + 2) + [a % 256];
    assert BigEndian(b, width + 2) == BigEndian(c, width + 1) + [b % 256];
    assert BigEndian(c, width + 1) == BigEndian(d, width) + [c % 256];
    BigEndian4(n);
    assert c == n / 0x100_0000 && b == n / 0x1_0000;
  }

  lemma ShiftTwice(n: nat)
    ensures n / 0x1_0000_0000 / 0x100_0000 == n / 0x100_0000_0000_0000
    ensures n / 0x1_0000_0000 / 0x1_0000 == n / 0x1_0000_0000_0000
    ensures n / 0x1_0000_0000 / 0x100 == n / 0x100_0000_0000
  {
  }

  lemma BigEndian8(n: nat)
    ensures BigEndian(n, 8) ==
            [n / 0x100_0000_0000_0000 % 256, n / 0x1_0000_0000_0000 % 256, n / 0x100_0000_0000 % 256,
             n / 0x1_0000_0000 % 256, n / 0x100_0000 % 256, n / 0x1_0000 % 256, n / 0x100 % 256, n % 256]
  {
    hide BigEndian;
    BigEndianSplit(n, 4);
    BigEndian4(n);
    BigEndian4(n / 0x1_0000_0000);
    ShiftTwice(n);
  }

  datatype Option<T> = None | Some(value: T)

  /** The mask that ends up in the frame: the given one, or what was in the array before. */
  function MaskIn(mask: Option<seq<Byte>>, before: seq<Byte>, at: nat): seq<Byte>
    requires at + 4 <= |before|
  {
    if mask.Some? then mask.value else before[at..at + 4]
  }

  method BuildHeader(frame: array<Byte>, flags: Byte, mask: Option<seq<Byte>>, len: nat) returns (offset: nat)
    requires MAX_HEADER <= frame.Length && len < SIZE_MODULUS && (mask.Some? ==> |mask.value| == 4)
    modifies frame
    ensures offset == CalcFrameHeaderSize(flags, len) <= MAX_HEADER
    ensures var at := 2 + |LongLength(len)|;
            at <= 10 && frame[..offset] == HeaderBytes(flags, MaskIn(mask, old(frame[..]), at), len)
    ensures forall i :: offset <= i < frame.Length ==> frame[i] == old(frame[i])
  {
    hide BigEndian;
    frame[0] := TopBit(HasFin(flags)) + Opcode(flags);
    frame[1] := TopBit(HasMask(flags)) + ShortLength(len);
    offset := WriteLength(frame, len);
    ghost var at := offset;
    assert frame[..at] == [frame[0], frame[1]] + LongLength(len);
    if HasMask(flags) {
      if mask.Some? {
        forall i | 0 <= i < 4 {
          frame[offset + i] := mask.value[i];
        }
      }
      offset := offset + 4;
      assert frame[at..offset] == MaskIn(mask, old(frame[..]), at);
    }
  }

  /** The extended length behind the first two bytes. */
  method WriteLength(frame: array<Byte>, len: nat) returns (offset: nat)
    requires MAX_HEADER <= frame.Length && len < SIZE_MODULUS
    modifies frame
    ensures offset == 2 + |LongLength(len)| <= 10 && frame[2..offset] == LongLength(len)
    ensures frame[0] == old(frame[0]) && frame[1] == old(frame[1])
    ensures forall i :: offset <= i < frame.Length ==> frame[i] == old(frame[i])
  {
    hide BigEndian;
    if len < 126 {
      offset := 2;
    } else if len <= 0xffff {
      frame[2] := len / 0x100;
      frame[3] := len % 256;
      offset := 4;
      BigEndian2(len);
    } else {
      frame[2] := len / 0x100_0000_0000_0000 % 256;
      frame[3] := len / 0x1_0000_0000_0000 % 256;
      frame[4] := len / 0x100_0000_0000 % 256;
      frame[5] := len / 0x1_0000_0000 % 256;
      frame[6] := len / 0x100_0000 % 256;
      frame[7] := len / 0x1_0000 % 256;
      frame[8] := len / 0x100 % 256;
      frame[9] := len % 256;
      offset := 10;
      BigEndian8(len);
    }
  }

  // ----- The parser, one byte at a time -----

  datatype Phase = SStart | SHead | SLength | SMask | SFinished

  datatype Parser = Parser(phase: Phase, flags: Byte, mask: seq<Byte>, length: nat, require: nat)

  const RESET: Parser := Parser(SStart, 0, [0, 0, 0, 0], 0, 0)

  ghost predicate ValidParser(p: Parser) {
    && |p.mask| == 4
    && (p.phase == SLength ==> 0 < p.require <= 8)
    && (p.phase == SMask ==> 0 < p.require <= 4)
  }

  function WithMaskBit(flags: Byte, b: Byte): Byte {
    if b >= 128 && !HasMask(flags) then (flags + 32) % 256 else flags
  }

  /** After the length is known: the mask, or the end. */
  function AfterLength(p: Parser): Parser {
    if HasMask(p.flags) then p.(phase := SMask, require := 4) else p.(phase := SFinished)
  }

  function Step(p: Parser, b: Byte): Parser
    requires ValidParser(p)
  {
    match p.phase
    case SStart => p.(phase := SHead, length := 0, flags := b % 16 + (if b >= 128 then 16 else 0))
    case SHead =>
      var q := p.(flags := WithMaskBit(p.flags, b));
      if b % 128 >= 126 then q.(phase := SLength, length := 0, require := if b % 128 == 127 then 8 else 2)
      else AfterLength(q.(length := b % 128))
    case SLength =>
      var q := p.(length := (p.length * 256 + b) % SIZE_MODULUS, require := p.require - 1);
      if q.require == 0 then AfterLength(q) else q
    case SMask =>
      var q := p.(mask := p.mask[4 - p.require := b], require := p.require - 1);
      if q.require == 0 then q.(phase := SFinished) else q
    case SFinished => p
  }

  lemma StepKeepsValid(p: Parser, b: Byte)
    requires ValidParser(p)
    ensures ValidParser(Step(p, b))
  {
  }

  /** The end of a header with the bytes used for it, or the parser to go on with. */
  datatype Outcome = Done(parser: Parser, used: nat) | More(parser: Parser)

  function RunFrom(p: Parser, data: seq<Byte>, i: nat): Outcome
    requires ValidParser(p) && i <= |data|
    decreases |data| - i
  {
    if i == |data| then More(p)
    else
      StepKeepsValid(p, data[i]);
      var q := Step(p, data[i]);
      if p.phase != SFinished && q.phase == SFinished then Done(q, i + 1) else RunFrom(q, data, i + 1)
  }

  function Run(p: Parser, data: seq<Byte>): Outcome
    requires ValidParser(p)
  {
    RunFrom(p, data, 0)
  }

  lemma {:induction false} RunKeepsValid(p: Parser, data: seq<Byte>, i: nat)
    requires ValidParser(p) && i <= |data|
    ensures ValidParser(RunFrom(p, data, i).parser)
    ensures RunFrom(p, data, i).Done? ==> i < RunFrom(p, data, i).used <= |data|
    decreases |data| - i
  {
    if i < |data| {
      StepKeepsValid(p, data[i]);
      if !(p.phase != SFinished && Step(p, data[i]).phase == SFinished) {
        RunKeepsValid(Step(p, data[i]), data, i + 1);
      }
    }
  }

  // ----- Fragments -----

  function Shift(r: Outcome, n: nat): Outcome {
    if r.Done? then r.(used := r.used + n) else r
  }

  lemma {:induction false} RunSplit(p: Parser, a: seq<Byte>, b: seq<Byte>, i: nat)
    requires ValidParser(p) && i <= |a|
    requires ValidParser(RunFrom(p, a, i).parser)
    ensures var r := RunFrom(p, a, i);
            RunFrom(p, a + b, i) == if r.Done? then r else RunFrom(r.parser, a + b, |a|)
    decreases |a| - i
  {
    if i < |a| {
      StepKeepsValid(p, a[i]);
      if !(p.phase != SFinished && Step(p, a[i]).phase == SFinished) {
        RunSplit(Step(p, a[i]), a, b, i + 1);
      }
    }
  }

  /** Only the bytes from `i` on matter. */
  lemma {:induction false} RunSuffix(p: Parser, a: seq<Byte>, b: seq<Byte>, i: nat)
    requires ValidParser(p) && i <= |b|
    ensures RunFrom(p, a + b, |a| + i) == Shift(RunFrom(p, b, i), |a|)
    decreases |b| - i
  {
    if i < |b| {
      StepKeepsValid(p, b[i]);
      assert (a + b)[|a| + i] == b[i];
      if !(p.phase != SFinished && Step(p, b[i]).phase == SFinished) {
        RunSuffix(Step(p, b[i]), a, b, i + 1);
      }
    }
  }

  /** One call per fragment until the header ends; `used` counts over all fragments. */
  function RunFragments(p: Parser, fragments: seq<seq<Byte>>): Outcome
    requires ValidParser(p)
    decreases fragments
  {
    if fragments == [] then More(p)
    else
      var r := Run(p, fragments[0]);
      if r.Done? then r
      else
        RunKeepsValid(p, fragments[0], 0);
        Shift(RunFragments(r.parser, fragments[1..]), |fragments[0]|)
  }

  lemma {:induction false} FragmentationIrrelevant(p: Parser, fragments: seq<seq<Byte>>)
    requires ValidParser(p)
    ensures RunFragments(p, fragments) == Run(p, Concat(fragments))
    decreases fragments
  {
    if fragments != [] {
      var a, b := fragments[0], Concat(fragments[1..]);
      RunKeepsValid(p, a, 0);
      RunSplit(p, a, b, 0);
      var r := Run(p, a);
      if r.More? {
        RunSuffix(r.parser, a, b, 0);
        FragmentationIrrelevant(r.parser, fragments[1..]);
      }
    }
  }

  // ----- Round trip -----

  function Accumulate(acc: nat, bytes: seq<Byte>): nat {
    if bytes == [] then acc else Accumulate(acc, bytes[..|bytes| - 1]) * 256 + bytes[|bytes| - 1]
  }

  function Pow256(n: nat): nat {
    if n == 0 then 1 else 256 * Pow256(n - 1)
  }

  lemma {:induction false} AccumulateBigEndian(n: nat, width: nat)
    requires n < Pow256(width)
    ensures Accumulate(0, BigEndian(n, width)) == n
    decreases width
  {
    if width > 0 {
      AccumulateBigEndian(n / 256, width - 1);
      assert BigEndian(n, width)[..width - 1] == BigEndian(n / 256, width - 1);
    }
  }

  lemma {:induction false} AccumulateFront(acc: nat, bytes: seq<Byte>)
    requires bytes != []
    ensures Accumulate(acc, bytes) == Accumulate(acc * 256 + bytes[0], bytes[1..])
  {
    if |bytes| == 1 {
      assert bytes[..0] == [] && bytes[1..] == [];
    } else {
      var front := bytes[..|bytes| - 1];
      AccumulateFront(acc, front);
      assert bytes[1..][..|bytes| - 2] == front[1..];
    }
  }

  lemma {:induction false} AccumulateGrows(acc: nat, bytes: seq<Byte>)
    ensures Accumulate(acc, bytes) >= acc
  {
    if bytes != [] {
      AccumulateGrows(acc, bytes[..|bytes| - 1]);
    }
  }

  /** The length bytes, read one by one, add up to the accumulated number if that fits in 64 bits. */
  lemma {:induction false} RunLength(p: Parser, data: seq<Byte>, i: nat)
    requires ValidParser(p) && p.phase == SLength && i + p.require <= |data|
    requires Accumulate(p.length, data[i..i + p.require]) < SIZE_MODULUS
    ensures var q := AfterLength(p.(length := Accumulate(p.length, data[i..i + p.require]), require := 0));
            RunFrom(p, data, i) == if HasMask(p.flags) then RunFrom(q, data, i + p.require) else Done(q, i + p.require)
    decreases p.require
  {
    var bytes := data[i..i + p.require];
    AccumulateFront(p.length, bytes);
    AccumulateGrows(p.length * 256 + data[i], bytes[1..]);
    assert bytes[1..] == data[i + 1..i + p.require];
    StepKeepsValid(p, data[i]);
    if p.require > 1 {
      RunLength(Step(p, data[i]), data, i + 1);
    } else {
      assert bytes[1..] == [];
    }
  }

  lemma {:induction false} RunMask(p: Parser, data: seq<Byte>, i: nat)
    requires ValidParser(p) && p.phase == SMask && i + p.require <= |data|
    ensures RunFrom(p, data, i) ==
            Done(p.(phase := SFinished, require := 0, mask := p.mask[..4 - p.require] + data[i..i + p.require]),
                 i + p.require)
    decreases p.require
  {
    StepKeepsValid(p, data[i]);
    var q := Step(p, data[i]);
    if p.require > 1 {
      RunMask(q, data, i + 1);
    }
    assert q.mask[..5 - p.require] + data[i + 1..i + p.require] == p.mask[..4 - p.require] + data[i..i + p.require];
  }

  /** The length that the first two bytes and the extension announce. */
  lemma {:induction false} RunBody(p: Parser, data: seq<Byte>, len: nat)
    requires ValidParser(p) && p.phase == SHead && len < SIZE_MODULUS && p.flags < 32
    requires |data| >= 2 + |LongLength(len)|
    requires data[1] % 128 == ShortLength(len) && data[2..2 + |LongLength(len)|] == LongLength(len)
    ensures var q := AfterLength(p.(flags := WithMaskBit(p.flags, data[1]), length := len,
                                    require := if len < 126 then p.require else 0));
            var at := 2 + |LongLength(len)|;
            RunFrom(p, data, 1) == if q.phase == SMask then RunFrom(q, data, at) else Done(q, at)
  {
    StepKeepsValid(p, data[1]);
    if len >= 126 {
      var q := Step(p, data[1]);
      var width := if len <= 0xffff then 2 else 8;
      Pow256Values();
      AccumulateBigEndian(len, width);
      RunLength(q, data, 2);
    }
  }

  lemma Pow256Values()
    ensures Pow256(2) == 0x1_0000 && Pow256(8) == SIZE_MODULUS
  {
    assert Pow256(4) == 0x1_0000_0000;
    assert Pow256(6) == 0x1_0000_0000_0000;
  }

  /** What a parser holds after a header. */
  ghost predicate Recovered(p: Parser, flags: Byte, mask: seq<Byte>, len: nat) {
    && p.phase == SFinished && p.flags == flags % 64 && p.length == len
    && (HasMask(flags) ==> p.mask == mask)
  }

  lemma FlagBits(flags: Byte)
    ensures Opcode(flags) + (if HasFin(flags) then 16 else 0) == flags % 32
    ensures flags % 32 + (if HasMask(flags) then 32 else 0) == flags % 64
    ensures HasMask(flags % 64) == HasMask(flags) && !HasMask(flags % 32)
  {
    var op, fin, mask, high := flags % 16, flags / 16 % 2, flags / 32 % 2, flags / 64;
    assert flags == 64 * high + 32 * mask + 16 * fin + op;
  }

  lemma BitFacts(flags: Byte, len: nat)
    ensures var first := TopBit(HasFin(flags)) + Opcode(flags);
            var second := TopBit(HasMask(flags)) + ShortLength(len);
            var low := first % 16 + (if first >= 128 then 16 else 0);
            && low == flags % 32 && second % 128 == ShortLength(len)
            && WithMaskBit(low, second) == flags % 64 && HasMask(flags % 64) == HasMask(flags)
  {
    hide HasFin, HasMask;
    FlagBits(flags);
  }

  /** Parsing a built header, with anything behind it, ends exactly at its last byte and recovers
      the six flag bits, the mask and the length; `p` is any parser ready for a frame. */
  lemma HeaderRoundTrip(p: Parser, flags: Byte, mask: seq<Byte>, len: nat, payload: seq<Byte>)
    requires ValidParser(p) && p.phase == SStart && |mask| == 4 && len < SIZE_MODULUS
    ensures var r := Run(p, HeaderBytes(flags, mask, len) + payload);
            r.Done? && r.used == CalcFrameHeaderSize(flags, len) && Recovered(r.parser, flags, mask, len)
  {
    var header := HeaderBytes(flags, mask, len);
    var data := header + payload;
    var at := 2 + |LongLength(len)|;
    SizeIsExact(flags, mask, len);
    BitFacts(flags, len);
    StepKeepsValid(p, data[0]);
    var q := Step(p, data[0]);
    assert data[2..at] == LongLength(len);
    RunBody(q, data, len);
    if HasMask(flags) {
      var m := AfterLength(q.(flags := WithMaskBit(q.flags, data[1]), length := len,
                              require := if len < 126 then q.require else 0));
      RunMask(m, data, at);
      assert data[at..at + 4] == mask;
      assert m.mask[..0] + mask == mask;
    }
  }

  // ----- What the parser makes of any bytes -----

  /** How many bytes the second byte announces for the length and for the mask. */
  function LengthWidth(second: Byte): nat {
    if second % 128 == 127 then 8 else if second % 128 == 126 then 2 else 0
  }

  function HeaderLength(second: Byte): nat {
    2 + LengthWidth(second) + (if second >= 128 then 4 else 0)
  }

  lemma {:induction false} AccumulateBound(bytes: seq<Byte>)
    ensures Accumulate(0, bytes) < Pow256(|bytes|)
  {
    if bytes != [] {
      AccumulateBound(bytes[..|bytes| - 1]);
    }
  }

  /** The fields that a header carries: the first byte's lowest four bits and its highest, the second
      byte's highest, and the length in big-endian order, or in the second byte itself. */
  ghost predicate Carries(p: Parser, data: seq<Byte>)
    requires |data| >= 2 && |data| >= HeaderLength(data[1])
  {
    var at := 2 + LengthWidth(data[1]);
    && p.phase == SFinished
    && p.flags == data[0] % 16 + (if data[0] >= 128 then 16 else 0) + (if data[1] >= 128 then 32 else 0)
    && p.length == (if at == 2 then data[1] % 128 else Accumulate(0, data[2..at]))
    && (data[1] >= 128 ==> p.mask == data[at..at + 4])
  }

  lemma FirstTwoBytes(p: Parser, data: seq<Byte>) returns (q: Parser)
    requires ValidParser(p) && p.phase == SStart && |data| >= 2
    ensures ValidParser(q) && RunFrom(p, data, 0) == (if q.phase == SFinished then Done(q, 2) else RunFrom(q, data, 2))
    ensures q.flags == data[0] % 16 + (if data[0] >= 128 then 16 else 0) + (if data[1] >= 128 then 32 else 0)
    ensures (HasMask(q.flags) <==> data[1] >= 128) && q.mask == p.mask
    ensures if LengthWidth(data[1]) == 0 then q.length == data[1] % 128 && q.phase == AfterLength(q).phase
            else q.length == 0 && q.phase == SLength && q.require == LengthWidth(data[1])
    ensures q.phase == SMask ==> q.require == 4
  {
    StepKeepsValid(p, data[0]);
    var h := Step(p, data[0]);
    StepKeepsValid(h, data[1]);
    q := Step(h, data[1]);
    assert !HasMask(h.flags) && HasMask(h.flags + 32);
  }

  lemma ParsesWholeHeader(p: Parser, data: seq<Byte>)
    requires ValidParser(p) && p.phase == SStart && |data| >= 2 && |data| >= HeaderLength(data[1])
    ensures var r := Run(p, data); r.Done? && r.used == HeaderLength(data[1]) && Carries(r.parser, data)
    ensures data[1] < 128 ==> Run(p, data).parser.mask == p.mask
  {
    hide RunFrom, Step;
    var q := FirstTwoBytes(p, data);
    var width := LengthWidth(data[1]);
    var at := 2 + width;
    if width > 0 {
      AccumulateBound(data[2..at]);
      Pow256Values();
      RunLength(q, data, 2);
      q := AfterLength(q.(length := Accumulate(0, data[2..at]), require := 0));
    }
    if q.phase == SMask {
      RunMask(q, data, at);
      assert q.mask[..0] + data[at..at + 4] == data[at..at + 4];
    }
  }

  /** For every input: the parser reports the end exactly at the last byte of the header that the second byte
      announces, and then holds the fields that the header carries; reserved bits are ignored. */
  lemma ParsesEveryInput(p: Parser, data: seq<Byte>)
    requires ValidParser(p) && p.phase == SStart
    ensures Run(p, data).Done? <==> |data| >= 2 && |data| >= HeaderLength(data[1])
    ensures Run(p, data).Done? ==> Run(p, data).used == HeaderLength(data[1]) && Carries(Run(p, data).parser, data)
    ensures Run(p, data).Done? && data[1] < 128 ==> Run(p, data).parser.mask == p.mask
  {
    hide RunFrom;
    if |data| >= 2 && |data| >= HeaderLength(data[1]) {
      ParsesWholeHeader(p, data);
    } else {
      var padded := data + seq(14, _ => 0);
      ParsesWholeHeader(p, padded);
      DoneIsStable(p, padded, |data|);
      assert padded[..|data|] == data;
    }
  }

  /** A parser that is new or has been reset reports a zero mask for a header without one. */
  lemma UnmaskedReportsZero(data: seq<Byte>)
    requires Run(RESET, data).Done? && |data| >= 2 && data[1] < 128
    ensures Run(RESET, data).parser.mask == [0, 0, 0, 0]
  {
    hide RunFrom;
    ParsesEveryInput(RESET, data);
  }

  /** No shorter header announces the same length with or without a mask: the builder's is minimal. */
  lemma BuiltHeaderIsShortest(data: seq<Byte>, flags: Byte, len: nat)
    requires Run(RESET, data).Done? && Run(RESET, data).parser.length == len
    requires HasMask(Run(RESET, data).parser.flags) == HasMask(flags)
    ensures CalcFrameHeaderSize(flags, len) <= Run(RESET, data).used
  {
    hide RunFrom;
    ParsesEveryInput(RESET, data);
    var at := 2 + LengthWidth(data[1]);
    AccumulateBound(data[2..at]);
    Pow256Values();
    FirstFlags(data[0], data[1]);
  }

  lemma FirstFlags(first: Byte, second: Byte)
    ensures HasMask(first % 16 + (if first >= 128 then 16 else 0) + (if second >= 128 then 32 else 0)) <==>
            second >= 128
  {
  }

  /** Once a header has ended, the parser takes nothing more until it is reset. */
  lemma {:induction false} FinishedStays(p: Parser, data: seq<Byte>, i: nat)
    requires ValidParser(p) && p.phase == SFinished && i <= |data|
    ensures RunFrom(p, data, i) == More(p)
    decreases |data| - i
  {
    if i < |data| {
      FinishedStays(p, data, i + 1);
    }
  }

  lemma {:induction false} DoneIsStable(p: Parser, data: seq<Byte>, k: nat)
    requires ValidParser(p) && k <= |data| && Run(p, data).Done?
    ensures Run(p, data[..k]).Done? <==> Run(p, data).used <= k
  {
    RunKeepsValid(p, data[..k], 0);
    RunSplit(p, data[..k], data[k..], 0);
    assert data[..k] + data[k..] == data;
    var r := Run(p, data[..k]);
    if r.More? {
      RunKeepsValid(r.parser, data, k);
    }
  }

  /** The same under any fragmentation: no call but the one that sees the last header byte reports
      the end, and that one counts up to it. */
  lemma FragmentedRoundTrip(flags: Byte, mask: seq<Byte>, len: nat, payload: seq<Byte>, fragments: seq<seq<Byte>>)
    requires |mask| == 4 && len < SIZE_MODULUS
    requires Concat(fragments) == HeaderBytes(flags, mask, len) + payload
    ensures var r := RunFragments(RESET, fragments);
            r.Done? && r.used == CalcFrameHeaderSize(flags, len) && Recovered(r.parser, flags, mask, len)
    ensures forall k :: 0 <= k <= |Concat(fragments)| ==>
              (Run(RESET, Concat(fragments)[..k]).More? <==> k < CalcFrameHeaderSize(flags, len))
  {
    hide RunFrom, RunFragments, HeaderBytes;
    HeaderRoundTrip(RESET, flags, mask, len, payload);
    FragmentationIrrelevant(RESET, fragments);
    forall k | 0 <= k <= |Concat(fragments)|
      ensures Run(RESET, Concat(fragments)[..k]).More? <==> k < CalcFrameHeaderSize(flags, len)
    {
      DoneIsStable(RESET, Concat(fragments), k);
    }
  }

  /** The constructors of a frame header, with or without a mask: the header is built into a zeroed
      array and the mask is not handed to the builder. */
  method NewFrameHeader(flags: Byte, mask: Option<seq<Byte>>, len: nat) returns (view: seq<Byte>)
    requires len < SIZE_MODULUS && (mask.Some? ==> |mask.value| == 4)
    ensures view == HeaderBytes(flags, [0, 0, 0, 0], len)
  {
    var frame := new Byte[MAX_HEADER](_ => 0);
    ghost var before := frame[..];
    var length := BuildHeader(frame, flags, None, len);
    view := frame[..length];
    ghost var at := 2 + |LongLength(len)|;
    assert forall i :: 0 <= i < |before| ==> before[i] == 0;
    assert before[at..at + 4] == [before[at], before[at + 1], before[at + 2], before[at + 3]];
  }

  /** So parsing such a header recovers the mask given to the constructor if and only if there is no
      mask bit or the mask is zero. */
  lemma ConstructorKeepsMaskIff(flags: Byte, mask: seq<Byte>, len: nat)
    requires |mask| == 4 && len < SIZE_MODULUS
    ensures var r := Run(RESET, HeaderBytes(flags, [0, 0, 0, 0], len));
            r.Done? && (Recovered(r.parser, flags, mask, len) <==> !HasMask(flags) || mask == [0, 0, 0, 0])
  {
    hide RunFrom, HeaderBytes;
    HeaderRoundTrip(RESET, flags, [0, 0, 0, 0], len, []);
    assert HeaderBytes(flags, [0, 0, 0, 0], len) + [] == HeaderBytes(flags, [0, 0, 0, 0], len);
  }

  // ----- The parser as written -----

  class HeaderParser {
    var phase: Phase
    var flags: Byte
    var mask: seq<Byte>
    var length: nat
    var require: nat

    ghost function AsParser(): Parser
      reads this
    {
      Parser(phase, flags, mask, length, require)
    }

    constructor ()
      ensures AsParser() == RESET
    {
      phase, flags, mask, length, require := SStart, 0, [0, 0, 0, 0], 0, 0;
    }

    method Reset()
      modifies this
      ensures AsParser() == RESET
    {
      phase, flags, mask, length, require := SStart, 0, [0, 0, 0, 0], 0, 0;
    }

    /** The outcome after a loop over length or mask bytes has stopped at `i`. */
    static ghost function Settled(p: Parser, data: seq<Byte>, i: nat): Outcome
      requires |p.mask| == 4 && i <= |data|
    {
      if HasMask(p.flags) && p.phase == SLength then RunFrom(p.(phase := SMask, require := 4), data, i)
      else Done(p.(phase := SFinished), i)
    }

    /** The loop over the bytes of an extended length. */
    method ReadLength(data: seq<Byte>, start: nat, ghost goal: Outcome) returns (i: nat)
      requires ValidParser(AsParser()) && phase == SLength && start < |data|
      requires goal == RunFrom(AsParser(), data, start)
      modifies this`length, this`require
      ensures start < i <= |data| && require <= 8
      ensures require > 0 ==> i == |data| && goal == RunFrom(AsParser(), data, i)
      ensures require == 0 ==> goal == Settled(AsParser(), data, i)
    {
      i := start;
      while i < |data| && require != 0
        invariant start <= i <= |data| && require <= 8 && (i == start ==> require > 0)
        invariant require > 0 ==> goal == RunFrom(AsParser(), data, i)
        invariant require == 0 ==> goal == Settled(AsParser(), data, i)
        decreases |data| - i
      {
        StepKeepsValid(AsParser(), data[i]);
        length := (length * 256 + data[i]) % SIZE_MODULUS;
        require := require - 1;
        i := i + 1;
      }
    }

    /** The loop over the mask bytes. */
    method ReadMask(data: seq<Byte>, start: nat, ghost goal: Outcome) returns (i: nat)
      requires ValidParser(AsParser()) && phase == SMask && start < |data|
      requires goal == RunFrom(AsParser(), data, start)
      modifies this`mask, this`require
      ensures start < i <= |data| && require <= 4 && |mask| == 4
      ensures require > 0 ==> i == |data| && goal == RunFrom(AsParser(), data, i)
      ensures require == 0 ==> goal == Done(AsParser().(phase := SFinished), i)
    {
      i := start;
      while i < |data| && require != 0
        invariant start <= i <= |data| && require <= 4 && |mask| == 4 && (i == start ==> require > 0)
        invariant require > 0 ==> goal == RunFrom(AsParser(), data, i)
        invariant require == 0 ==> goal == Done(AsParser().(phase := SFinished), i)
        decreases |data| - i
      {
        StepKeepsValid(AsParser(), data[i]);
        mask := mask[4 - require := data[i]];
        require := require - 1;
        i := i + 1;
      }
    }

    /** Returns the number of bytes of this call that belong to the header once it is complete, and
        `NPOS` until then. */
    method Parse(data: seq<Byte>) returns (ret: nat)
      requires ValidParser(AsParser()) && |data| < 0xffff_ffff_ffff_ffff
      modifies this
      ensures ValidParser(AsParser())
      ensures var r := Run(old(AsParser()), data);
              AsParser() == r.parser && ret == if r.Done? then r.used else 0xffff_ffff_ffff_ffff
    {
      hide RunFrom;
      ghost var goal := Run(AsParser(), data);
      RunKeepsValid(AsParser(), data, 0);
      var i := 0;
      while i != |data|
        invariant i <= |data| && ValidParser(AsParser()) && goal == RunFrom(AsParser(), data, i)
        decreases |data| - i
      {
        RunOne(AsParser(), data, i);
        match phase
        case SStart =>
          length := 0;
          flags := data[i] % 16 + (if data[i] >= 128 then 16 else 0);
          phase := SHead;
          i := i + 1;
        case SHead =>
          length := data[i] % 128;
          flags := WithMaskBit(flags, data[i]);
          i := i + 1;
          if length >= 126 {
            require := if length == 127 then 8 else 2;
            length := 0;
            phase := SLength;
          } else if HasMask(flags) {
            phase := SMask;
            require := 4;
          } else {
            phase := SFinished;
            return i;
          }
        case SLength =>
          i := ReadLength(data, i, goal);
          if require == 0 {
            if HasMask(flags) {
              phase := SMask;
              require := 4;
            } else {
              phase := SFinished;
              return i;
            }
          }
        case SMask =>
          i := ReadMask(data, i, goal);
          if require == 0 {
            phase := SFinished;
            return i;
          }
        case SFinished =>
          i := i + 1;
      }
      RunNone(AsParser(), data);
      ret := NPOS;
    }
  }

  lemma RunOne(p: Parser, data: seq<Byte>, i: nat)
    requires ValidParser(p) && i < |data|
    ensures ValidParser(Step(p, data[i]))
    ensures var q := Step(p, data[i]);
            RunFrom(p, data, i) ==
            if p.phase != SFinished && q.phase == SFinished then Done(q, i + 1) else RunFrom(q, data, i + 1)
  {
    StepKeepsValid(p, data[i]);
  }

  lemma RunNone(p: Parser, data: seq<Byte>)
    requires ValidParser(p)
    ensures RunFrom(p, data, |data|) == More(p)
  {
  }
}
