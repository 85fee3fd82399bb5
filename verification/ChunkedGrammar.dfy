/**
 The language of chunked bodies that the decoder reads, written as a grammar, and the round trip
 between printing and decoding.
 */
module ChunkedGrammar {
  import opened Bytes
  import opened ChunkedDecoder

  // ----- Grammar -----

  /** One chunk: its size digits, what follows them on the line, its data, and the number of CRs
      before the LF that closes it. */
  datatype Chunk = Chunk(size: seq<Byte>, ext: seq<Byte>, data: seq<Byte>, crs: nat)

  /** A trailer line: CRs, then at least one byte, up to its LF. */
  datatype Trailer = Trailer(crs: nat, first: Byte, more: seq<Byte>)

  /** A body: chunks with data, the zero-size line, and the trailer section with the CRs before its
      closing LF. */
  datatype Body = Body(chunks: seq<Chunk>, size: seq<Byte>, ext: seq<Byte>, trailers: seq<Trailer>, crs: nat)

  const LOWER: string := "0123456789abcdef"
  const UPPER: string := "0123456789ABCDEF"

  /** The byte `b` is written for the digit `v`, in either case. */
  predicate IsDigit(b: Byte, v: nat) {
    v < 16 && (b == LOWER[v] as int || b == UPPER[v] as int)
  }

  /** The digits `s` spell `n`, with any leading zeros. */
  predicate Spells(s: seq<Byte>, n: nat) {
    && s != [] && IsDigit(s[|s| - 1], n % 16)
    && (if |s| == 1 then n < 16 else Spells(s[..|s| - 1], n / 16))
  }

  ghost predicate AllHex(s: seq<Byte>) {
    forall i :: 0 <= i < |s| ==> DecodeHex(s[i]) != -1
  }

  function HexValue(s: seq<Byte>): nat
    requires AllHex(s)
  {
    if s == [] then 0 else HexValue(s[..|s| - 1]) * 16 + DecodeHex(s[|s| - 1])
  }

  lemma DigitBytes(v: nat)
    requires v < 16
    ensures LOWER[v] as int == (if v < 10 then 0x30 + v else 0x57 + v)
    ensures UPPER[v] as int == (if v < 10 then 0x30 + v else 0x37 + v)
  {
    if v < 8 {
      assert v == 0 || v == 1 || v == 2 || v == 3 || v == 4 || v == 5 || v == 6 || v == 7;
    } else {
      assert v == 8 || v == 9 || v == 10 || v == 11 || v == 12 || v == 13 || v == 14 || v == 15;
    }
  }

  /** `decode_hex` knows exactly the sixteen digits, those above nine in both cases. */
  lemma DecodeHexExact(b: Byte, v: nat)
    ensures DecodeHex(b) == v <==> IsDigit(b, v)
    ensures DecodeHex(b) == -1 <==> forall w: nat :: w < 16 ==> !IsDigit(b, w)
  {
    if v < 16 {
      DigitBytes(v);
    }
    if DecodeHex(b) >= 0 {
      DigitBytes(DecodeHex(b));
      assert IsDigit(b, DecodeHex(b));
    } else {
      forall w: nat | w < 16 ensures !IsDigit(b, w) {
        DigitBytes(w);
      }
    }
  }

  /** The value that the decoder reads is the number that the digits spell, and no other bytes spell one. */
  lemma {:induction false} SpellsIff(s: seq<Byte>, n: nat)
    requires s != []
    ensures Spells(s, n) <==> AllHex(s) && HexValue(s) == n
  {
    hide IsDigit;
    var front, last := s[..|s| - 1], s[|s| - 1];
    DecodeHexExact(last, n % 16);
    assert AllHex(s) <==> AllHex(front) && DecodeHex(last) != -1 by {
      assert s == front + [last];
      if AllHex(s) {
        assert forall i :: 0 <= i < |front| ==> front[i] == s[i];
      }
    }
    if |s| > 1 {
      SpellsIff(front, n / 16);
    } else {
      assert front == [];
    }
  }

  ghost predicate ValidSizeLine(size: seq<Byte>, ext: seq<Byte>) {
    && 1 <= |size| <= MAX_HEX_DIGITS && AllHex(size)
    && LF !in ext && (ext != [] ==> DecodeHex(ext[0]) == -1)
  }

  ghost predicate ValidChunk(k: Chunk) {
    ValidSizeLine(k.size, k.ext) && HexValue(k.size) == |k.data| && k.data != []
  }

  ghost predicate ValidTrailer(t: Trailer) {
    t.first != CR && t.first != LF && LF !in t.more
  }

  ghost predicate ValidBody(b: Body) {
    && (forall i :: 0 <= i < |b.chunks| ==> ValidChunk(b.chunks[i]))
    && ValidSizeLine(b.size, b.ext) && HexValue(b.size) == 0
    && forall i :: 0 <= i < |b.trailers| ==> ValidTrailer(b.trailers[i])
  }

  function Crs(n: nat): seq<Byte> {
    seq(n, _ => CR)
  }

  function PrintSizeLine(size: seq<Byte>, ext: seq<Byte>): seq<Byte> {
    size + ext + [LF]
  }

  function PrintChunk(k: Chunk): seq<Byte> {
    PrintSizeLine(k.size, k.ext) + k.data + (Crs(k.crs) + [LF])
  }

  function PrintChunks(ks: seq<Chunk>): seq<Byte> {
    if ks == [] then [] else PrintChunk(ks[0]) + PrintChunks(ks[1..])
  }

  function PrintTrailer(t: Trailer): seq<Byte> {
    Crs(t.crs) + [t.first] + t.more + [LF]
  }

  function PrintTrailers(ts: seq<Trailer>): seq<Byte> {
    if ts == [] then [] else PrintTrailer(ts[0]) + PrintTrailers(ts[1..])
  }

  /** The bytes of a body as far as the decoder reads them: with the trailer section only when the
      application asked for it to be consumed. */
  function PrintBody(b: Body, consumeTrailer: bool): seq<Byte> {
    PrintChunks(b.chunks) + PrintSizeLine(b.size, b.ext) +
    (if consumeTrailer then PrintTrailers(b.trailers) + (Crs(b.crs) + [LF]) else [])
  }

  function Payload(ks: seq<Chunk>): seq<Byte> {
    if ks == [] then [] else ks[0].data + Payload(ks[1..])
  }

  // ----- Reading pieces of the grammar -----

  /** `input` takes the decoder from `c` to `next`, emitting `out`. */
  ghost predicate Reads(c: Control, ct: bool, input: seq<Byte>, next: Control, out: seq<Byte>) {
    Run(c, ct, input) == Outcome(next, out, [], Incomplete)
  }

  lemma ReadsThen(c: Control, ct: bool, a: seq<Byte>, mid: Control, out: seq<Byte>, b: seq<Byte>)
    requires Reads(c, ct, a, mid, out)
    ensures Run(c, ct, a + b) == Run(mid, ct, b).Prepend(out)
  {
    hide Run;
    RunSplit(c, ct, a, b);
  }

  lemma ReadsByte(c: Control, ct: bool, b: Byte)
    ensures match Step(c, ct, b)
            case Consume(next, emitted) => Run(c, ct, [b]) == Outcome(next, emitted, [], Incomplete)
            case Finish(last) => Run(c, ct, [b]) == Outcome(last, [], [], Complete)
            case Refuse(at) => Run(c, ct, [b]) == Outcome(at, [], [b], Invalid)
  {
    assert [b][1..] == [];
    match Step(c, ct, b)
    case Consume(next, emitted) => assert emitted + [] == emitted;
    case _ =>
  }

  lemma {:induction false} HexValueBound(s: seq<Byte>)
    requires AllHex(s)
    ensures HexValue(s) < Pow16(|s|)
  {
    if s != [] {
      HexValueBound(s[..|s| - 1]);
    }
  }

  lemma {:induction false} ReadsDigits(size: seq<Byte>, ct: bool)
    requires AllHex(size) && |size| <= MAX_HEX_DIGITS
    ensures Reads(ZeroFilled, ct, size, Control(HexValue(size), |size|, ChunkSize), [])
  {
    hide Run;
    ReadsNothing(ZeroFilled, ct);
    if size != [] {
      var front, last := size[..|size| - 1], size[|size| - 1];
      ReadsDigits(front, ct);
      HexValueBound(front);
      var c := Control(HexValue(front), |front|, ChunkSize);
      Pow16Bound(|front|);
      SizeNeverWraps(c, DecodeHex(last));
      ReadsByte(c, ct, last);
      ReadsThen(ZeroFilled, ct, front, c, [], [last]);
      assert size == front + [last];
    }
  }

  /** Bytes without an LF stay on the extension line. */
  lemma {:induction false} ReadsExtension(c: Control, ct: bool, ext: seq<Byte>)
    requires c.phase == ChunkExt && LF !in ext
    ensures Reads(c, ct, ext, c, [])
  {
    if ext != [] {
      assert ext[0] in ext && LF !in ext[1..];
      ReadsExtension(c, ct, ext[1..]);
    }
  }

  /** After the digits, the rest of the size line is read as an extension. */
  lemma LeaveDigits(v: nat, n: nat, ct: bool, input: seq<Byte>)
    requires 0 < n && input != [] && DecodeHex(input[0]) == -1
    ensures Run(Control(v, n, ChunkSize), ct, input) == Run(Control(v, 0, ChunkExt), ct, input)
  {
    assert Step(Control(v, n, ChunkSize), ct, input[0]) == Step(Control(v, 0, ChunkExt), ct, input[0]);
  }

  /** A whole size line: what happens next is what the LF does in the extension state. */
  lemma RunSizeLine(size: seq<Byte>, ext: seq<Byte>, ct: bool)
    requires ValidSizeLine(size, ext)
    ensures Run(ZeroFilled, ct, PrintSizeLine(size, ext)) == Run(Control(HexValue(size), 0, ChunkExt), ct, [LF])
  {
    hide Run;
    var v := HexValue(size);
    var c := Control(v, 0, ChunkExt);
    ReadsDigits(size, ct);
    ReadsThen(ZeroFilled, ct, size, Control(v, |size|, ChunkSize), [], ext + [LF]);
    LeaveDigits(v, |size|, ct, ext + [LF]);
    ReadsExtension(c, ct, ext);
    ReadsThen(c, ct, ext, c, [], [LF]);
    assert size + (ext + [LF]) == PrintSizeLine(size, ext);
    assert [] + ([] + Run(c, ct, [LF]).out) == Run(c, ct, [LF]).out;
    assert Run(c, ct, [LF]).Prepend([]).Prepend([]) == Run(c, ct, [LF]);
  }

  /** CRs are skipped in front of the LF that ends a chunk or the trailer section. */
  lemma {:induction false} ReadsCrs(c: Control, ct: bool, n: nat)
    requires c.phase == ChunkCrlf || c.phase == TrailersLineHead
    ensures Reads(c, ct, Crs(n), c, [])
  {
    if n > 0 {
      ReadsCrs(c, ct, n - 1);
      assert Crs(n)[1..] == Crs(n - 1);
    }
  }

  lemma ReadsChunk(k: Chunk, ct: bool)
    requires ValidChunk(k)
    ensures Reads(ZeroFilled, ct, PrintChunk(k), ZeroFilled, k.data)
  {
    hide Run;
    var line := PrintSizeLine(k.size, k.ext);
    var c := Control(|k.data|, 0, ChunkData);
    RunSizeLine(k.size, k.ext, ct);
    ReadsByte(Control(|k.data|, 0, ChunkExt), ct, LF);
    ReadsThen(ZeroFilled, ct, line, c, [], k.data);
    RunData(c, ct, k.data);
    var end := Control(0, 0, ChunkCrlf);
    assert Reads(ZeroFilled, ct, line + k.data, end, k.data) by { assert [] + k.data == k.data; }
    ReadsThen(ZeroFilled, ct, line + k.data, end, k.data, Crs(k.crs) + [LF]);
    ReadsCrs(end, ct, k.crs);
    ReadsThen(end, ct, Crs(k.crs), end, [], [LF]);
    ReadsByte(end, ct, LF);
    assert k.data + ([] + []) == k.data;
  }

  lemma {:induction false} ReadsChunks(ks: seq<Chunk>, ct: bool)
    requires forall i :: 0 <= i < |ks| ==> ValidChunk(ks[i])
    ensures Reads(ZeroFilled, ct, PrintChunks(ks), ZeroFilled, Payload(ks))
  {
    if ks != [] {
      hide Run;
      ReadsChunk(ks[0], ct);
      ReadsChunks(ks[1..], ct);
      ReadsThen(ZeroFilled, ct, PrintChunk(ks[0]), ZeroFilled, ks[0].data, PrintChunks(ks[1..]));
    }
  }

  lemma {:induction false} ReadsTrailerText(c: Control, ct: bool, more: seq<Byte>)
    requires c.phase == TrailersLineMiddle && LF !in more
    ensures Reads(c, ct, more, c, [])
  {
    if more != [] {
      assert more[0] in more && LF !in more[1..];
      ReadsTrailerText(c, ct, more[1..]);
    }
  }

  lemma ReadsTrailer(t: Trailer)
    requires ValidTrailer(t)
    ensures Reads(Control(0, 0, TrailersLineHead), true, PrintTrailer(t), Control(0, 0, TrailersLineHead), [])
  {
    hide Run;
    var head, middle := Control(0, 0, TrailersLineHead), Control(0, 0, TrailersLineMiddle);
    ReadsCrs(head, true, t.crs);
    ReadsByte(head, true, t.first);
    ReadsThen(head, true, Crs(t.crs), head, [], [t.first]);
    ReadsTrailerText(middle, true, t.more);
    ReadsThen(head, true, Crs(t.crs) + [t.first], middle, [], t.more);
    ReadsByte(middle, true, LF);
    ReadsThen(head, true, Crs(t.crs) + [t.first] + t.more, middle, [], [LF]);
  }

  lemma {:induction false} ReadsTrailers(ts: seq<Trailer>)
    requires forall i :: 0 <= i < |ts| ==> ValidTrailer(ts[i])
    ensures Reads(Control(0, 0, TrailersLineHead), true, PrintTrailers(ts), Control(0, 0, TrailersLineHead), [])
  {
    if ts != [] {
      hide Run;
      var head := Control(0, 0, TrailersLineHead);
      ReadsTrailer(ts[0]);
      ReadsTrailers(ts[1..]);
      ReadsThen(head, true, PrintTrailer(ts[0]), head, [], PrintTrailers(ts[1..]));
    }
  }

  // ----- Every body of the grammar is decoded -----

  function LastControl(ct: bool): Control {
    Control(0, 0, if ct then TrailersLineHead else ChunkExt)
  }

  lemma RunEnding(b: Body, ct: bool)
    requires ValidBody(b)
    ensures Run(ZeroFilled, ct, PrintBody(b.(chunks := []), ct)) == Outcome(LastControl(ct), [], [], Complete)
  {
    hide Run;
    var line := PrintSizeLine(b.size, b.ext);
    RunSizeLine(b.size, b.ext, ct);
    ReadsByte(Control(0, 0, ChunkExt), ct, LF);
    if ct {
      var head := Control(0, 0, TrailersLineHead);
      var ts, close := PrintTrailers(b.trailers), Crs(b.crs) + [LF];
      ReadsThen(ZeroFilled, ct, line, head, [], ts + close);
      ReadsTrailers(b.trailers);
      ReadsThen(head, ct, ts, head, [], close);
      ReadsCrs(head, ct, b.crs);
      ReadsThen(head, ct, Crs(b.crs), head, [], [LF]);
      ReadsByte(head, ct, LF);
      assert PrintBody(b.(chunks := []), ct) == line + (ts + close);
    } else {
      assert PrintBody(b.(chunks := []), ct) == line;
    }
  }

  /** Whatever follows a body is left unread, and the output is exactly the chunks' data. */
  lemma DecodesEveryBody(b: Body, ct: bool, tail: seq<Byte>)
    requires ValidBody(b)
    ensures Run(ZeroFilled, ct, PrintBody(b, ct) + tail) ==
            Outcome(LastControl(ct), Payload(b.chunks), tail, Complete)
  {
    hide Run;
    var front, ending := PrintChunks(b.chunks), PrintBody(b.(chunks := []), ct);
    ReadsChunks(b.chunks, ct);
    RunEnding(b, ct);
    ReadsThen(ZeroFilled, ct, front, ZeroFilled, Payload(b.chunks), ending);
    assert PrintBody(b, ct) == front + ending;
    assert Payload(b.chunks) + [] == Payload(b.chunks);
    RunSplit(ZeroFilled, ct, PrintBody(b, ct), tail);
    assert [] + tail == tail;
  }

  // ----- Nothing else is accepted -----

  lemma SplitAt(s: seq<Byte>, k: nat)
    requires k <= |s|
    ensures s == s[..k] + s[k..]
  {
  }

  /** A seventeenth size digit is refused. */
  lemma TooManyDigits(input: seq<Byte>, ct: bool)
    requires |input| > MAX_HEX_DIGITS && AllHex(input[..MAX_HEX_DIGITS + 1])
    ensures Run(ZeroFilled, ct, input).verdict == Invalid
  {
    hide Run;
    var most, rest := input[..MAX_HEX_DIGITS], input[MAX_HEX_DIGITS..];
    assert rest[0] == input[..MAX_HEX_DIGITS + 1][MAX_HEX_DIGITS];
    assert AllHex(most) by {
      assert forall i :: 0 <= i < |most| ==> most[i] == input[..MAX_HEX_DIGITS + 1][i];
    }
    ReadsDigits(most, ct);
    SplitAt(input, MAX_HEX_DIGITS);
    var full := Control(HexValue(most), MAX_HEX_DIGITS, ChunkSize);
    ReadsThen(ZeroFilled, ct, most, full, [], rest);
    ReadsFirst(full, ct, rest);
  }

  /** An accepted input starts with size digits. */
  lemma DecomposeDigits(input: seq<Byte>, ct: bool) returns (n: nat)
    requires Run(ZeroFilled, ct, input).verdict == Complete
    ensures 1 <= n <= MAX_HEX_DIGITS && n < |input| && AllHex(input[..n]) && DecodeHex(input[n]) == -1
    ensures Run(Control(HexValue(input[..n]), 0, ChunkExt), ct, input[n..]).verdict == Complete
  {
    hide Run, HexValue;
    n := Find(input, 0, b => DecodeHex(b) == -1);
    if n > MAX_HEX_DIGITS {
      TooManyDigits(input, ct);
      assert false;
    }
    var v := HexValue(input[..n]);
    var c := Control(v, n, ChunkSize);
    ReadsDigits(input[..n], ct);
    SplitAt(input, n);
    ReadsThen(ZeroFilled, ct, input[..n], c, [], input[n..]);
    ReadsNothing(c, ct);
    if n < |input| {
      ReadsFirst(c, ct, input[n..]);
      LeaveDigits(v, n, ct, input[n..]);
    }
  }

  /** And then a whole size line. */
  lemma DecomposeSizeLine(input: seq<Byte>, ct: bool) returns (size: seq<Byte>, ext: seq<Byte>, rest: seq<Byte>)
    requires Run(ZeroFilled, ct, input).verdict == Complete
    ensures ValidSizeLine(size, ext) && input == PrintSizeLine(size, ext) + rest
  {
    hide Run, HexValue;
    var n := DecomposeDigits(input, ct);
    var m := Find(input, n, b => b == LF);
    size, ext := input[..n], input[n..m];
    var e := Control(HexValue(size), 0, ChunkExt);
    assert input[n..] == ext + input[m..];
    ReadsExtension(e, ct, ext);
    ReadsThen(e, ct, ext, e, [], input[m..]);
    if m == |input| {
      ReadsNothing(e, ct);
      assert false;
    }
    rest := input[m + 1..];
    assert input == PrintSizeLine(size, ext) + rest;
  }

  lemma ReadsNothing(c: Control, ct: bool)
    ensures Reads(c, ct, [], c, [])
  {
  }

  /** The first byte decides on refusal or completion by itself. */
  lemma ReadsFirst(c: Control, ct: bool, input: seq<Byte>)
    requires input != []
    ensures match Step(c, ct, input[0])
            case Consume(next, emitted) => Run(c, ct, input) == Run(next, ct, input[1..]).Prepend(emitted)
            case Finish(last) => Run(c, ct, input) == Outcome(last, [], input[1..], Complete)
            case Refuse(at) => Run(c, ct, input) == Outcome(at, [], input, Invalid)
  {
  }

  /** CRs and the LF behind them, where the decoder waits for the end of a line. */
  lemma DecomposeCrs(c: Control, ct: bool, input: seq<Byte>) returns (n: nat)
    requires c.phase == ChunkCrlf || c.phase == TrailersLineHead
    requires Run(c, ct, input).verdict == Complete
    ensures n < |input| && input[n] != CR && forall i :: 0 <= i < n ==> input[i] == CR
    ensures Run(c, ct, input[n..]).verdict == Complete
  {
    hide Run;
    n := Find(input, 0, b => b != CR);
    assert input[..n] == Crs(n);
    SplitAt(input, n);
    ReadsCrs(c, ct, n);
    ReadsThen(c, ct, Crs(n), c, [], input[n..]);
    if n == |input| {
      ReadsNothing(c, ct);
      assert false;
    }
  }

  lemma TrailerLayout(input: seq<Byte>, n: nat, m: nat)
    requires n < m < |input| && input[m] == LF && forall i :: 0 <= i < n ==> input[i] == CR
    ensures input == PrintTrailer(Trailer(n, input[n], input[n + 1..m])) + input[m + 1..]
  {
  }

  /** A trailer line whose CRs have been read. */
  lemma DecomposeTrailer(input: seq<Byte>, n: nat) returns (t: Trailer, rest: seq<Byte>)
    requires n < |input| && input[n] != CR && input[n] != LF && forall i :: 0 <= i < n ==> input[i] == CR
    requires Run(Control(0, 0, TrailersLineHead), true, input[n..]).verdict == Complete
    ensures ValidTrailer(t) && input == PrintTrailer(t) + rest
    ensures Run(Control(0, 0, TrailersLineHead), true, rest).verdict == Complete
  {
    hide Run;
    var middle := Control(0, 0, TrailersLineMiddle);
    ReadsFirst(Control(0, 0, TrailersLineHead), true, input[n..]);
    var m := Find(input, n + 1, b => b == LF);
    t := Trailer(n, input[n], input[n + 1..m]);
    assert input[n..][1..] == t.more + input[m..];
    ReadsTrailerText(middle, true, t.more);
    ReadsThen(middle, true, t.more, middle, [], input[m..]);
    if m == |input| {
      ReadsNothing(middle, true);
      assert false;
    }
    ReadsFirst(middle, true, input[m..]);
    rest := input[m + 1..];
    assert input[m..][1..] == rest;
    TrailerLayout(input, n, m);
  }

  lemma {:induction false} DecomposeTrailers(input: seq<Byte>) returns (ts: seq<Trailer>, crs: nat, tail: seq<Byte>)
    requires Run(Control(0, 0, TrailersLineHead), true, input).verdict == Complete
    ensures forall i :: 0 <= i < |ts| ==> ValidTrailer(ts[i])
    ensures input == PrintTrailers(ts) + (Crs(crs) + [LF]) + tail
    decreases |input|
  {
    hide Run;
    var n := DecomposeCrs(Control(0, 0, TrailersLineHead), true, input);
    if input[n] == LF {
      ts, crs, tail := [], n, input[n + 1..];
      assert input[..n] == Crs(n);
      assert input == [] + (Crs(n) + [LF]) + tail;
    } else {
      var t, rest := DecomposeTrailer(input, n);
      var us;
      us, crs, tail := DecomposeTrailers(rest);
      ts := [t] + us;
      assert ts[1..] == us;
    }
  }

  /** After a size line with a positive value: the data, and the line end that closes the chunk. */
  lemma DecomposeData(v: nat, ct: bool, input: seq<Byte>) returns (data: seq<Byte>, crs: nat, rest: seq<Byte>)
    requires 0 < v && Run(Control(v, 0, ChunkData), ct, input).verdict == Complete
    ensures |data| == v && input == data + (Crs(crs) + [LF]) + rest
    ensures Run(ZeroFilled, ct, rest).verdict == Complete
  {
    hide Run;
    var c, end := Control(v, 0, ChunkData), Control(0, 0, ChunkCrlf);
    if |input| < v {
      if input == [] {
        ReadsNothing(c, ct);
      } else {
        RunData(c, ct, input);
      }
      assert false;
    }
    data := input[..v];
    RunData(c, ct, data);
    SplitAt(input, v);
    ReadsThen(c, ct, data, end, data, input[v..]);
    crs := DecomposeCrs(end, ct, input[v..]);
    assert input[v..][..crs] == Crs(crs);
    ReadsFirst(end, ct, input[v..][crs..]);
    rest := input[v + crs + 1..];
    assert input[v..][crs..][1..] == rest;
    assert input[v..] == (Crs(crs) + [LF]) + rest;
  }

  lemma ConsChunk(k: Chunk, b: Body, ct: bool) returns (b': Body)
    requires ValidChunk(k) && ValidBody(b)
    ensures ValidBody(b') && PrintBody(b', ct) == PrintChunk(k) + PrintBody(b, ct)
  {
    b' := b.(chunks := [k] + b.chunks);
    assert b'.chunks[1..] == b.chunks;
  }

  lemma {:induction false} Decompose(input: seq<Byte>, ct: bool) returns (b: Body, tail: seq<Byte>)
    requires Run(ZeroFilled, ct, input).verdict == Complete
    ensures ValidBody(b) && input == PrintBody(b, ct) + tail
    decreases |input|
  {
    hide Run, HexValue;
    var size, ext, rest := DecomposeSizeLine(input, ct);
    var line, v := PrintSizeLine(size, ext), HexValue(size);
    RunSizeLine(size, ext, ct);
    ReadsByte(Control(v, 0, ChunkExt), ct, LF);
    if v > 0 {
      ReadsThen(ZeroFilled, ct, line, Control(v, 0, ChunkData), [], rest);
      var data, crs, more := DecomposeData(v, ct, rest);
      var k := Chunk(size, ext, data, crs);
      assert input == PrintChunk(k) + more;
      b, tail := Decompose(more, ct);
      b := ConsChunk(k, b, ct);
    } else if ct {
      ReadsThen(ZeroFilled, ct, line, Control(0, 0, TrailersLineHead), [], rest);
      var ts, crs, tail' := DecomposeTrailers(rest);
      b, tail := Body([], size, ext, ts, crs), tail';
      assert PrintBody(b, ct) == line + (PrintTrailers(ts) + (Crs(crs) + [LF]));
    } else {
      b, tail := Body([], size, ext, [], 0), rest;
      assert PrintBody(b, ct) == line;
    }
  }

  /** The decoder accepts exactly the inputs that start with a body of the grammar, and then its
      output and its unread tail are that body's data and what follows it. */
  lemma AcceptsExactlyTheGrammar(input: seq<Byte>, ct: bool)
    ensures Run(ZeroFilled, ct, input).verdict == Complete <==>
            exists b, tail :: ValidBody(b) && input == PrintBody(b, ct) + tail
    ensures forall b, tail :: ValidBody(b) && input == PrintBody(b, ct) + tail ==>
              Run(ZeroFilled, ct, input) == Outcome(LastControl(ct), Payload(b.chunks), tail, Complete)
  {
    hide Run;
    forall b, tail | ValidBody(b) && input == PrintBody(b, ct) + tail
      ensures Run(ZeroFilled, ct, input) == Outcome(LastControl(ct), Payload(b.chunks), tail, Complete)
    {
      DecodesEveryBody(b, ct, tail);
    }
    if Run(ZeroFilled, ct, input).verdict == Complete {
      var b, tail := Decompose(input, ct);
    }
  }

  // ----- Invalid or only incomplete -----

  lemma CompleteEnd(ct: bool) returns (t: seq<Byte>)
    ensures Run(ZeroFilled, ct, t).verdict == Complete
  {
    var b := Body([], [0x30], [], [], 0);
    assert HexValue([0x30]) == 0 by { assert [0x30][..0] == []; }
    RunEnding(b, ct);
    t := PrintBody(b, ct);
    assert b.(chunks := []) == b;
  }

  lemma CompleteCrlf(ct: bool) returns (t: seq<Byte>)
    ensures Run(Control(0, 0, ChunkCrlf), ct, t).verdict == Complete
  {
    hide Run;
    var end := CompleteEnd(ct);
    t := [LF] + end;
    ReadsFirst(Control(0, 0, ChunkCrlf), ct, t);
    assert t[1..] == end;
  }

  lemma CompleteData(left: nat, ct: bool) returns (t: seq<Byte>)
    requires left > 0
    ensures Run(Control(left, 0, ChunkData), ct, t).verdict == Complete
  {
    hide Run;
    var c, data := Control(left, 0, ChunkData), seq(left, _ => 0);
    RunData(c, ct, data);
    var end := CompleteCrlf(ct);
    t := data + end;
    ReadsThen(c, ct, data, Control(0, 0, ChunkCrlf), data, end);
  }

  lemma CompleteExt(left: nat, ct: bool) returns (t: seq<Byte>)
    ensures t != [] && t[0] == LF && Run(Control(left, 0, ChunkExt), ct, t).verdict == Complete
  {
    hide Run;
    var end := [];
    if left > 0 {
      end := CompleteData(left, ct);
    } else if ct {
      end := [LF];
      ReadsFirst(Control(0, 0, TrailersLineHead), ct, end);
    }
    t := [LF] + end;
    assert t[1..] == end;
    ReadsFirst(Control(left, 0, ChunkExt), ct, t);
  }

  /** From every state that a decoder can be in, some input completes the body. */
  lemma CompleteFrom(c: Control, ct: bool) returns (t: seq<Byte>)
    requires ValidControl(c)
    ensures Run(c, ct, t).verdict == Complete
  {
    hide Run;
    match c.phase
    case ChunkSize =>
      if c.hexCount == 0 {
        assert c == ZeroFilled;
        t := CompleteEnd(ct);
      } else {
        t := CompleteExt(c.left, ct);
        LeaveDigits(c.left, c.hexCount, ct, t);
      }
    case ChunkExt => t := CompleteExt(c.left, ct);
    case ChunkData => t := CompleteData(c.left, ct);
    case ChunkCrlf => t := CompleteCrlf(ct);
    case TrailersLineHead =>
      t := [LF];
      ReadsFirst(c, ct, t);
    case TrailersLineMiddle =>
      t := [LF, LF];
      ReadsFirst(c, ct, t);
      ReadsFirst(c.(phase := TrailersLineHead), ct, [LF]);
      assert t[1..] == [LF];
  }

  /** The two failures mean what they say: -2 exactly when more input can still complete the body,
      -1 exactly when none can. */
  lemma IncompleteIff(c: Control, ct: bool, input: seq<Byte>)
    requires ValidControl(c)
    ensures Run(c, ct, input).Code() == -2 <==>
            Run(c, ct, input).verdict != Complete && exists t :: Run(c, ct, input + t).verdict == Complete
    ensures Run(c, ct, input).Code() == -1 <==> forall t :: Run(c, ct, input + t).verdict != Complete
  {
    hide Run, ValidControl;
    assert input + [] == input;
    var r := Run(c, ct, input);
    if r.verdict == Incomplete {
      RunKeepsValid(c, ct, input);
      var t := CompleteFrom(r.control, ct);
      RunSplit(c, ct, input, t);
      assert Run(c, ct, input + t).verdict == Complete;
    } else {
      forall t ensures Run(c, ct, input + t).verdict == r.verdict {
        RunSplit(c, ct, input, t);
      }
    }
  }

  /** Nothing is read beyond the byte that decides: without it the input is incomplete, and with it the
      verdict is there.  A refused byte stays unread, one that completes the body does not. */
  lemma {:induction false} StopsAtTheDecidingByte(c: Control, ct: bool, input: seq<Byte>)
    requires Run(c, ct, input).verdict != Incomplete
    ensures var r := Run(c, ct, input);
            var n := |input| - |r.rest| - (if r.verdict == Complete then 1 else 0);
            && 0 <= n < |input| && Run(c, ct, input[..n]).verdict == Incomplete
            && Run(c, ct, input[..n + 1]).verdict == r.verdict
    decreases input
  {
    hide Step;
    ReadsNothing(c, ct);
    if input != [] {
      ReadsFirst(c, ct, input);
      match Step(c, ct, input[0])
      case Consume(next, emitted) =>
        StopsAtTheDecidingByte(next, ct, input[1..]);
        var r := Run(c, ct, input);
        var n := |input| - |r.rest| - (if r.verdict == Complete then 1 else 0);
        ReadsFirst(c, ct, input[..n]);
        ReadsFirst(c, ct, input[..n + 1]);
        assert input[..n][1..] == input[1..][..n - 1];
        assert input[..n + 1][1..] == input[1..][..n];
      case _ =>
        assert input[..0] == [];
        ReadsFirst(c, ct, input[..1]);
    }
  }

  // ----- Printing plain payloads -----

  function HexDigit(v: nat): Byte
    requires v < 16
  {
    if v < 10 then 0x30 + v else 0x61 + v - 10
  }

  function PrintHex(n: nat): seq<Byte> {
    if n < 16 then [HexDigit(n)] else PrintHex(n / 16) + [HexDigit(n % 16)]
  }

  lemma {:induction false} HexRoundTrip(n: nat, digits: nat)
    requires 0 < digits && n < Pow16(digits)
    ensures AllHex(PrintHex(n)) && HexValue(PrintHex(n)) == n && 1 <= |PrintHex(n)| <= digits
    decreases n
  {
    var s := PrintHex(n);
    if n < 16 {
      assert s[..0] == [];
    } else {
      assert digits > 1 by { assert Pow16(1) == 16 * Pow16(0); }
      HexRoundTrip(n / 16, digits - 1);
      assert s[..|s| - 1] == PrintHex(n / 16);
    }
  }

  /** Each payload as one chunk, with the digits given for its size; lines are ended by CR LF. */
  function Chunks(payloads: seq<seq<Byte>>, sizes: seq<seq<Byte>>): seq<Chunk>
    requires |sizes| == |payloads|
  {
    seq(|payloads|, i requires 0 <= i < |payloads| => Chunk(sizes[i], [CR], payloads[i], 1))
  }

  function Frame(payloads: seq<seq<Byte>>, sizes: seq<seq<Byte>>): Body
    requires |sizes| == |payloads|
  {
    Body(Chunks(payloads, sizes), [0x30], [CR], [], 1)
  }

  lemma {:induction false} PayloadOfChunks(payloads: seq<seq<Byte>>, sizes: seq<seq<Byte>>)
    requires |sizes| == |payloads|
    ensures Payload(Chunks(payloads, sizes)) == Concat(payloads)
  {
    if payloads != [] {
      PayloadOfChunks(payloads[1..], sizes[1..]);
      assert Chunks(payloads, sizes)[1..] == Chunks(payloads[1..], sizes[1..]);
    }
  }

  /** Print with sizes spelled in any mix of cases and with any leading zeros that fit sixteen digits, cut
      into fragments at will, decode: the payloads come back, and what follows the terminating line
      (or the empty trailer section) is left. */
  lemma SpelledRoundTrip(payloads: seq<seq<Byte>>, sizes: seq<seq<Byte>>, ct: bool, tail: seq<Byte>,
                         fragments: seq<seq<Byte>>)
    requires |sizes| == |payloads|
    requires forall i :: 0 <= i < |payloads| ==>
               payloads[i] != [] && |sizes[i]| <= 16 && Spells(sizes[i], |payloads[i]|)
    requires Concat(fragments) == PrintBody(Frame(payloads, sizes), ct) + tail
    ensures RunFragments(ZeroFilled, ct, fragments) == Outcome(LastControl(ct), Concat(payloads), tail, Complete)
  {
    hide Run, Spells;
    var b := Frame(payloads, sizes);
    forall i | 0 <= i < |payloads|
      ensures ValidChunk(b.chunks[i])
    {
      SpelledNotEmpty(sizes[i], |payloads[i]|);
      SpellsIff(sizes[i], |payloads[i]|);
    }
    assert HexValue([0x30]) == 0 by { assert [0x30][..0] == []; }
    PayloadOfChunks(payloads, sizes);
    DecodesEveryBody(b, ct, tail);
    FragmentationIrrelevant(ZeroFilled, ct, fragments);
  }

  lemma SpelledNotEmpty(s: seq<Byte>, n: nat)
    requires Spells(s, n)
    ensures s != []
  {
  }

  function PrintedSizes(payloads: seq<seq<Byte>>): seq<seq<Byte>> {
    seq(|payloads|, i requires 0 <= i < |payloads| => PrintHex(|payloads[i]|))
  }

  /** In particular with the sizes printed in the usual way, for every size that fits 64 bits. */
  lemma PrintDecodeRoundTrip(payloads: seq<seq<Byte>>, ct: bool, tail: seq<Byte>, fragments: seq<seq<Byte>>)
    requires forall i :: 0 <= i < |payloads| ==> 0 < |payloads[i]| < SIZE_MODULUS
    requires Concat(fragments) == PrintBody(Frame(payloads, PrintedSizes(payloads)), ct) + tail
    ensures RunFragments(ZeroFilled, ct, fragments) == Outcome(LastControl(ct), Concat(payloads), tail, Complete)
  {
    hide Run, Spells, RunFragments, PrintBody;
    Pow16Of16();
    var sizes := PrintedSizes(payloads);
    forall i | 0 <= i < |payloads|
      ensures payloads[i] != [] && |sizes[i]| <= 16 && Spells(sizes[i], |payloads[i]|)
    {
      HexRoundTrip(|payloads[i]|, 16);
      SpellsIff(sizes[i], |payloads[i]|);
    }
    SpelledRoundTrip(payloads, sizes, ct, tail, fragments);
  }
}
