/**
 Masking of payloads (section 5.3 of RFC 6455) and whole masked frames.
 */
module WebsocketFrames {
  import opened Bytes
  import opened WebsocketHeaders

  /** Exclusive or of the low `n` bits. */
  function XorBits(a: nat, b: nat, n: nat): nat {
    if n == 0 then 0 else 2 * XorBits(a / 2, b / 2, n - 1) + (if a % 2 == b % 2 then 0 else 1)
  }

  function Pow2(n: nat): nat {
    if n == 0 then 1 else 2 * Pow2(n - 1)
  }

  lemma {:induction false} XorBitsBound(a: nat, b: nat, n: nat)
    ensures XorBits(a, b, n) < Pow2(n)
    decreases n
  {
    if n > 0 {
      XorBitsBound(a / 2, b / 2, n - 1);
    }
  }

  lemma {:induction false} XorBitsTwice(a: nat, b: nat, n: nat)
    requires a < Pow2(n)
    ensures XorBits(XorBits(a, b, n), b, n) == a
    decreases n
  {
    if n > 0 {
      XorBitsTwice(a / 2, b / 2, n - 1);
      var x := XorBits(a, b, n);
      assert x / 2 == XorBits(a / 2, b / 2, n - 1);
    }
  }

  function Xor(a: Byte, b: Byte): Byte {
    XorBitsBound(a, b, 8);
    XorBits(a, b, 8)
  }

  lemma XorTwice(a: Byte, b: Byte)
    ensures Xor(Xor(a, b), b) == a
  {
    XorBitsTwice(a, b, 8);
  }

  /** Bit `k` of a number, counted from the lowest. */
  function Bit(n: nat, k: nat): nat
    decreases k
  {
    if k == 0 then n % 2 else Bit(n / 2, k - 1)
  }

  lemma {:induction false} XorBitsAt(a: nat, b: nat, n: nat, k: nat)
    requires k < n
    ensures Bit(XorBits(a, b, n), k) == 1 <==> Bit(a, k) != Bit(b, k)
    decreases n
  {
    var x := XorBits(a, b, n);
    assert x / 2 == XorBits(a / 2, b / 2, n - 1);
    if k > 0 {
      XorBitsAt(a / 2, b / 2, n - 1, k - 1);
    }
  }

  lemma {:induction false} SameBits(a: nat, b: nat, n: nat)
    requires a < Pow2(n) && b < Pow2(n) && forall k :: 0 <= k < n ==> Bit(a, k) == Bit(b, k)
    ensures a == b
    decreases n
  {
    if n > 0 {
      assert Bit(a, 0) == Bit(b, 0);
      forall k | 0 <= k < n - 1 ensures Bit(a / 2, k) == Bit(b / 2, k) {
        assert Bit(a, k + 1) == Bit(b, k + 1);
      }
      SameBits(a / 2, b / 2, n - 1);
    }
  }

  /** Bit by bit, `x` is set where `a` and `b` differ. */
  ghost predicate DiffersExactly(a: Byte, b: Byte, x: Byte) {
    forall k :: 0 <= k < 8 ==> (Bit(x, k) == 1 <==> Bit(a, k) != Bit(b, k))
  }

  /** Exclusive or is the one byte whose bits are set exactly where the bits of its arguments differ. */
  lemma XorIsBitwise(a: Byte, b: Byte, x: Byte)
    ensures x == Xor(a, b) <==> DiffersExactly(a, b, x)
  {
    hide XorBits, Xor, Bit;
    var y := Xor(a, b);
    assert DiffersExactly(a, b, y) by {
      forall k | 0 <= k < 8 ensures Bit(y, k) == 1 <==> Bit(a, k) != Bit(b, k) {
        XorAt(a, b, k);
      }
    }
    if DiffersExactly(a, b, x) {
      forall k | 0 <= k < 8 ensures Bit(x, k) == Bit(y, k) {
        BitIsBinary(x, k);
        BitIsBinary(y, k);
      }
      assert Pow2(8) == 256;
      SameBits(x, y, 8);
    }
  }

  lemma XorAt(a: Byte, b: Byte, k: nat)
    requires k < 8
    ensures Bit(Xor(a, b), k) == 1 <==> Bit(a, k) != Bit(b, k)
  {
    XorBitsAt(a, b, 8, k);
  }

  lemma {:induction false} BitIsBinary(n: nat, k: nat)
    ensures Bit(n, k) == 0 || Bit(n, k) == 1
    decreases k
  {
    if k > 0 {
      BitIsBinary(n / 2, k - 1);
    }
  }

  lemma XorZero(b: Byte)
    ensures Xor(0, b) == b
  {
    hide Xor, XorBits;
    forall k | 0 <= k < 8 ensures Bit(b, k) == 1 <==> Bit(0, k) != Bit(b, k) {
      BitIsBinary(b, k);
      BitOfZero(k);
    }
    XorIsBitwise(0, b, b);
  }

  lemma {:induction false} BitOfZero(k: nat)
    ensures Bit(0, k) == 0
    decreases k
  {
    if k > 0 {
      BitOfZero(k - 1);
    }
  }

  /** Byte `k` of the data is combined with byte `(i + k) % 4` of the key. */
  function MaskFrom(data: seq<Byte>, key: seq<Byte>, i: nat): seq<Byte>
    requires |key| == 4
  {
    seq(|data|, k requires 0 <= k < |data| => Xor(data[k], key[(i + k) % 4]))
  }

  /** In place, returning the index to go on with. */
  method WebsocketMask(data: array<Byte>, key: seq<Byte>, start: nat) returns (i: nat)
    requires |key| == 4
    modifies data
    ensures data[..] == MaskFrom(old(data[..]), key, start)
    ensures i == start + data.Length
  {
    hide Xor;
    i := start;
    while i < start + data.Length
      invariant start <= i <= start + data.Length
      invariant forall k :: 0 <= k < i - start ==> data[k] == Xor(old(data[k]), key[(start + k) % 4])
      invariant forall k :: i - start <= k < data.Length ==> data[k] == old(data[k])
    {
      data[i - start] := Xor(data[i - start], key[i % 4]);
      i := i + 1;
    }
  }

  /** Masking is its own inverse. */
  lemma MaskTwice(data: seq<Byte>, key: seq<Byte>, i: nat)
    requires |key| == 4
    ensures MaskFrom(MaskFrom(data, key, i), key, i) == data
  {
    hide Xor;
    forall k | 0 <= k < |data|
      ensures Xor(Xor(data[k], key[(i + k) % 4]), key[(i + k) % 4]) == data[k]
    {
      XorTwice(data[k], key[(i + k) % 4]);
    }
  }

  /** Masking piece by piece, each with the index the last one returned, masks the whole. */
  lemma MaskSplit(a: seq<Byte>, b: seq<Byte>, key: seq<Byte>, i: nat)
    requires |key| == 4
    ensures MaskFrom(a + b, key, i) == MaskFrom(a, key, i) + MaskFrom(b, key, i + |a|)
  {
    hide Xor;
    var whole, parts := MaskFrom(a + b, key, i), MaskFrom(a, key, i) + MaskFrom(b, key, i + |a|);
    forall k | 0 <= k < |a + b|
      ensures whole[k] == parts[k]
    {
      if k >= |a| {
        assert (a + b)[k] == b[k - |a|] && i + |a| + (k - |a|) == i + k;
      }
    }
  }

  function Repeat(key: seq<Byte>, n: nat): seq<Byte> {
    if n == 0 then [] else key + Repeat(key, n - 1)
  }

  lemma MaskOfFourZeros(key: seq<Byte>)
    requires |key| == 4
    ensures MaskFrom(seq(4, _ => 0), key, 0) == key
  {
    hide Xor;
    forall k | 0 <= k < 4 ensures MaskFrom(seq(4, _ => 0), key, 0)[k] == key[k] {
      XorZero(key[k]);
    }
  }

  lemma MaskPeriod(data: seq<Byte>, key: seq<Byte>, i: nat)
    requires |key| == 4
    ensures MaskFrom(data, key, i + 4) == MaskFrom(data, key, i)
  {
    hide Xor;
    forall k | 0 <= k < |data| ensures MaskFrom(data, key, i + 4)[k] == MaskFrom(data, key, i)[k] {
      assert (i + 4 + k) % 4 == (i + k) % 4;
    }
  }

  /** Masking zeros shows the key stream: the key from its first byte on, over and over. */
  lemma {:induction false} MaskOfZeros(key: seq<Byte>, n: nat)
    requires |key| == 4
    ensures MaskFrom(seq(4 * n, _ => 0), key, 0) == Repeat(key, n)
    decreases n
  {
    hide Xor, MaskFrom;
    MaskLength(seq(4 * n, _ => 0), key, 0);
    if n > 0 {
      var first, rest := seq(4, _ => 0), seq(4 * (n - 1), _ => 0);
      assert seq(4 * n, _ => 0) == first + rest;
      MaskSplit(first, rest, key, 0);
      MaskOfFourZeros(key);
      MaskPeriod(rest, key, 0);
      MaskOfZeros(key, n - 1);
    }
  }

  function MaskPieces(pieces: seq<seq<Byte>>, key: seq<Byte>, i: nat): seq<seq<Byte>>
    requires |key| == 4
    decreases pieces
  {
    if pieces == [] then [] else [MaskFrom(pieces[0], key, i)] + MaskPieces(pieces[1..], key, i + |pieces[0]|)
  }

  lemma {:induction false} MaskPiecesIsMask(pieces: seq<seq<Byte>>, key: seq<Byte>, i: nat)
    requires |key| == 4
    ensures Concat(MaskPieces(pieces, key, i)) == MaskFrom(Concat(pieces), key, i)
    decreases pieces
  {
    if pieces != [] {
      MaskPiecesIsMask(pieces[1..], key, i + |pieces[0]|);
      MaskSplit(pieces[0], Concat(pieces[1..]), key, i);
      assert MaskPieces(pieces, key, i)[1..] == MaskPieces(pieces[1..], key, i + |pieces[0]|);
    }
  }

  /** A frame on the wire: the header, and the payload masked when the flags say so. */
  function FrameBytes(flags: Byte, key: seq<Byte>, payload: seq<Byte>): seq<Byte>
    requires |key| == 4
  {
    HeaderBytes(flags, key, |payload|) + (if HasMask(flags) then MaskFrom(payload, key, 0) else payload)
  }

  /** A receiver: the header is parsed as the fragments arrive, then as many bytes as it announces are
      taken and unmasked with the key it carried. */
  function Receive(fragments: seq<seq<Byte>>): Option<seq<Byte>> {
    var r := RunFragments(RESET, fragments);
    var data := Concat(fragments);
    if r.More? || r.used > |data| || r.used + r.parser.length > |data| || |r.parser.mask| != 4 then None
    else
      var body := data[r.used..r.used + r.parser.length];
      Some(if HasMask(r.parser.flags) then MaskFrom(body, r.parser.mask, 0) else body)
  }

  /** Build and mask, cut anywhere, with anything behind: parsing and unmasking gives the payload. */
  lemma FrameRoundTrip(flags: Byte, key: seq<Byte>, payload: seq<Byte>, behind: seq<Byte>, fragments: seq<seq<Byte>>)
    requires |key| == 4 && |payload| < SIZE_MODULUS
    requires Concat(fragments) == FrameBytes(flags, key, payload) + behind
    ensures Receive(fragments) == Some(payload)
  {
    hide RunFragments, RunFrom, HeaderBytes, MaskFrom;
    var header := HeaderBytes(flags, key, |payload|);
    var body := if HasMask(flags) then MaskFrom(payload, key, 0) else payload;
    MaskLength(payload, key, 0);
    Assoc(header, body, behind);
    FragmentedRoundTrip(flags, key, |payload|, body + behind, fragments);
    SizeIsExact(flags, key, |payload|);
    RunKeepsValid(RESET, Concat(fragments), 0);
    FragmentationIrrelevant(RESET, fragments);
    var data := Concat(fragments);
    assert data[|header|..|header| + |payload|] == body;
    assert HasMask(flags % 64) == HasMask(flags) by { BitFacts(flags, 0); }
    MaskTwice(payload, key, 0);
  }

  lemma MaskLength(data: seq<Byte>, key: seq<Byte>, i: nat)
    requires |key| == 4
    ensures |MaskFrom(data, key, i)| == |data|
  {
  }

  /** Unmasking the body in the pieces it arrives in, threading the index, gives the payload as well. */
  lemma UnmaskInPieces(key: seq<Byte>, payload: seq<Byte>, pieces: seq<seq<Byte>>)
    requires |key| == 4 && Concat(pieces) == MaskFrom(payload, key, 0)
    ensures Concat(MaskPieces(pieces, key, 0)) == payload
  {
    MaskPiecesIsMask(pieces, key, 0);
    MaskTwice(payload, key, 0);
  }

  /** The examples of section 5.7 of RFC 6455: a text message in one frame, unmasked and masked, and
      the headers of binary messages of 256 bytes and of 64 KiB. */
  lemma ExamplesOfTheStandard()
    ensures var hello, key := [0x48, 0x65, 0x6c, 0x6c, 0x6f], [0x37, 0xfa, 0x21, 0x3d];
            && FrameBytes(0x11, key, hello) == [0x81, 0x05, 0x48, 0x65, 0x6c, 0x6c, 0x6f]
            && FrameBytes(0x31, key, hello) ==
               [0x81, 0x85, 0x37, 0xfa, 0x21, 0x3d, 0x7f, 0x9f, 0x4d, 0x51, 0x58]
            && HeaderBytes(0x12, key, 256) == [0x82, 0x7e, 0x01, 0x00]
            && HeaderBytes(0x12, key, 65536) == [0x82, 0x7f, 0, 0, 0, 0, 0, 1, 0, 0]
  {
    hide BigEndian, XorBits, Xor;
    var hello, key := [0x48, 0x65, 0x6c, 0x6c, 0x6f], [0x37, 0xfa, 0x21, 0x3d];
    BigEndian2(256);
    BigEndian8(65536);
    assert MaskFrom(hello, key, 0) == [0x7f, 0x9f, 0x4d, 0x51, 0x58] by {
      ExampleBytes();
    }
  }

  lemma ExampleBytes()
    ensures Xor(0x48, 0x37) == 0x7f && Xor(0x65, 0xfa) == 0x9f && Xor(0x6c, 0x21) == 0x4d
    ensures Xor(0x6c, 0x3d) == 0x51 && Xor(0x6f, 0x37) == 0x58
  {
    hide XorBits;
    XorStep(0x48, 0x37, 7); XorStep(0x24, 0x1b, 6); XorStep(0x12, 0x0d, 5); XorStep(0x09, 0x06, 4);
    XorStep(0x65, 0xfa, 7); XorStep(0x32, 0x7d, 6); XorStep(0x19, 0x3e, 5); XorStep(0x0c, 0x1f, 4);
    XorStep(0x6c, 0x21, 7); XorStep(0x36, 0x10, 6); XorStep(0x1b, 0x08, 5); XorStep(0x0d, 0x04, 4);
    XorStep(0x6c, 0x3d, 7); XorStep(0x36, 0x1e, 6); XorStep(0x1b, 0x0f, 5); XorStep(0x0d, 0x07, 4);
    XorStep(0x6f, 0x37, 7); XorStep(0x37, 0x1b, 6); XorStep(0x1b, 0x0d, 5); XorStep(0x0d, 0x06, 4);
    XorNibbles();
  }

  lemma XorStep(a: nat, b: nat, n: nat)
    ensures XorBits(a, b, n + 1) == 2 * XorBits(a / 2, b / 2, n) + (if a % 2 == b % 2 then 0 else 1)
  {
  }

  lemma XorNibbles()
    ensures XorBits(0x4, 0x3, 4) == 0x7 && XorBits(0x6, 0xf, 4) == 0x9 && XorBits(0x6, 0x2, 4) == 0x4
    ensures XorBits(0x6, 0x3, 4) == 0x5
  {
    hide XorBits;
    XorStep(0x4, 0x3, 3); XorStep(0x2, 0x1, 2);
    XorStep(0x6, 0xf, 3); XorStep(0x3, 0x7, 2);
    XorStep(0x6, 0x2, 3); XorStep(0x3, 0x1, 2);
    XorStep(0x6, 0x3, 3);
    XorPairs();
  }

  lemma XorPairs()
    ensures XorBits(0x1, 0x0, 2) == 0x1 && XorBits(0x1, 0x3, 2) == 0x2
  {
  }
}
