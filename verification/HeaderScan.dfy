/**
 The header parser as written: block-wise or unrolled scanning loops and an array of headers filled
 in place.  Whether the machine has the string-compare instruction (`sse`) makes no difference to
 the result, which is the one that the plain left-to-right reading gives.
 */
module HeaderScan {
  import opened Bytes
  import opened HeaderSpec

  const BLOCK: nat := 16

  /** Pairs of bytes, each pair a closed range. */
  predicate InRanges(ranges: seq<Byte>, b: Byte) {
    exists r :: 0 <= r < |ranges| / 2 && ranges[2 * r] <= b <= ranges[2 * r + 1]
  }

  /** Control characters other than HT, and DEL. */
  const VALUE_RANGES: seq<Byte> := [0, 8, 10, 31, 127, 127]

  const NAME_RANGES: seq<Byte> :=
    [0, 0x20, 0x22, 0x22, 0x28, 0x29, 0x2c, 0x2c, 0x2f, 0x2f, 0x3a, 0x40, 0x5b, 0x5d, 0x7b, 0xff]

  lemma RangeWitness(ranges: seq<Byte>, b: Byte, r: nat)
    requires r < |ranges| / 2 && ranges[2 * r] <= b <= ranges[2 * r + 1]
    ensures InRanges(ranges, b)
  {
  }

  /** The value ranges are exactly the bytes that end a value. */
  lemma ValueRangesExact(b: Byte)
    ensures InRanges(VALUE_RANGES, b) <==> IsControl(b)
  {
    if b <= 8 {
      RangeWitness(VALUE_RANGES, b, 0);
    } else if 10 <= b <= 31 {
      RangeWitness(VALUE_RANGES, b, 1);
    } else if b == 127 {
      RangeWitness(VALUE_RANGES, b, 2);
    }
  }

  /** The name ranges stop at every byte that is not a token character; they also stop at two that
      are, which the byte loop then steps over. */
  lemma NameRangesCover(b: Byte)
    ensures !InRanges(NAME_RANGES, b) ==> !EndsName(b)
    ensures InRanges(NAME_RANGES, b) && !EndsName(b) <==> b == 0x7c || b == 0x7e
  {
    if b <= 0x20 {
      RangeWitness(NAME_RANGES, b, 0);
    } else if b == 0x22 {
      RangeWitness(NAME_RANGES, b, 1);
    } else if 0x28 <= b <= 0x29 {
      RangeWitness(NAME_RANGES, b, 2);
    } else if b == 0x2c {
      RangeWitness(NAME_RANGES, b, 3);
    } else if b == 0x2f {
      RangeWitness(NAME_RANGES, b, 4);
    } else if 0x3a <= b <= 0x40 {
      RangeWitness(NAME_RANGES, b, 5);
    } else if 0x5b <= b <= 0x5d {
      RangeWitness(NAME_RANGES, b, 6);
    } else if 0x7b <= b {
      RangeWitness(NAME_RANGES, b, 7);
    }
  }

  /** The string-compare instruction: the least position of a block byte in one of the ranges, or 16. */
  method CompareRanges(ranges: seq<Byte>, block: seq<Byte>) returns (r: nat)
    requires |block| == BLOCK
    ensures r <= BLOCK && (forall k :: 0 <= k < r ==> !InRanges(ranges, block[k]))
    ensures r < BLOCK ==> InRanges(ranges, block[r])
  {
    r := 0;
    while r < BLOCK && !InRanges(ranges, block[r])
      invariant r <= BLOCK && forall k :: 0 <= k < r ==> !InRanges(ranges, block[k])
    {
      r := r + 1;
    }
  }

  /** Skips whole blocks without a byte in the ranges; without the instruction it does nothing. */
  method FindcharFast(s: seq<Byte>, start: nat, ranges: seq<Byte>, sse: bool) returns (pos: nat, found: bool)
    requires start <= |s|
    ensures start <= pos <= |s| && forall k :: start <= k < pos ==> !InRanges(ranges, s[k])
    ensures found ==> pos < |s| && InRanges(ranges, s[pos])
    ensures if sse then found || |s| - pos < BLOCK else pos == start && !found
  {
    pos, found := start, false;
    if sse && |s| - start >= BLOCK {
      var left: nat := (|s| - start) / BLOCK * BLOCK;
      while left != 0
        invariant start <= pos && left % BLOCK == 0 && pos + left <= |s| < pos + left + BLOCK
        invariant forall k :: start <= k < pos ==> !InRanges(ranges, s[k])
        decreases left
      {
        var block := s[pos..pos + BLOCK];
        var r := CompareRanges(ranges, block);
        forall k | pos <= k < pos + r
          ensures !InRanges(ranges, s[k])
        {
          assert s[k] == block[k - pos];
        }
        if r != BLOCK {
          pos, found := pos + r, true;
          return;
        }
        pos, left := pos + BLOCK, left - BLOCK;
      }
    }
  }

  predicate IsPrintableAscii(b: Byte) {
    32 <= b < 127
  }

  /** The end of a value: by the instruction, or eight bytes at a time, and then byte by byte. */
  method FindControl(s: seq<Byte>, start: nat, sse: bool) returns (e: nat)
    requires start <= |s|
    ensures e == Find(s, start, IsControl)
  {
    e := start;
    if sse {
      var found;
      e, found := FindcharFast(s, start, VALUE_RANGES, sse);
      forall b: Byte
        ensures InRanges(VALUE_RANGES, b) <==> IsControl(b)
      {
        ValueRangesExact(b);
      }
      if found {
        FindIs(s, start, IsControl, e);
        return;
      }
    } else {
      while |s| - e >= 8
        invariant start <= e <= |s| && forall k :: start <= k < e ==> !IsControl(s[k])
        decreases |s| - e
      {
        var n := 0;
        while n < 8 && IsPrintableAscii(s[e + n])
          invariant 0 <= n <= 8 && e + 8 <= |s|
          invariant forall k :: start <= k < e + n ==> !IsControl(s[k])
        {
          n := n + 1;
        }
        e := e + n;
        if n < 8 {
          if IsControl(s[e]) {
            FindIs(s, start, IsControl, e);
            return;
          }
          e := e + 1;
        }
      }
    }
    while e < |s| && !IsControl(s[e])
      invariant start <= e <= |s| && forall k :: start <= k < e ==> !IsControl(s[k])
    {
      e := e + 1;
    }
    FindIs(s, start, IsControl, e);
  }

  datatype Token = Token(next: nat, len: nat) | NoToken(error: Error)

  method GetTokenToEol(s: seq<Byte>, start: nat, sse: bool) returns (r: Token)
    requires start <= |s|
    ensures var e := Find(s, start, IsControl);
            r == match EndOfLine(s, e)
                 case Eol(next) => Token(next, e - start)
                 case NoEol(error) => NoToken(error)
  {
    var e := FindControl(s, start, sse);
    if e == |s| {
      return NoToken(Partial);
    }
    if s[e] == CR {
      if e + 1 == |s| {
        return NoToken(Partial);
      }
      r := if s[e + 1] == LF then Token(e + 2, e - start) else NoToken(Malformed);
    } else if s[e] == LF {
      r := Token(e + 1, e - start);
    } else {
      r := NoToken(Malformed);
    }
  }

  datatype NameScan = NameScan(nameEnd: nat, valueAt: nat) | NoName(error: Error)

  /** The name, the colon and the blanks behind it. */
  method ScanName(s: seq<Byte>, start: nat, sse: bool) returns (r: NameScan)
    requires start < |s|
    ensures var j := Find(s, start, EndsName);
            r == if j == |s| then NoName(Partial)
                 else if s[j] != COLON || j == start then NoName(Malformed)
                 else
                   var k := Find(s, j + 1, NotBlank);
                   if k == |s| then NoName(Partial) else NameScan(j, k)
  {
    var j, found := FindcharFast(s, start, NAME_RANGES, sse);
    forall b: Byte
      ensures !InRanges(NAME_RANGES, b) ==> !EndsName(b)
    {
      NameRangesCover(b);
    }
    while j < |s| && s[j] != COLON && IsTokenChar(s[j])
      invariant start <= j <= |s| && forall k :: start <= k < j ==> !EndsName(s[k])
    {
      j := j + 1;
    }
    FindIs(s, start, EndsName, j);
    if j == |s| {
      return NoName(Partial);
    }
    if s[j] != COLON || j == start {
      return NoName(Malformed);
    }
    var k := j + 1;
    while k < |s| && IsBlank(s[k])
      invariant j + 1 <= k <= |s| && forall m :: j + 1 <= m < k ==> !NotBlank(s[m])
    {
      k := k + 1;
    }
    FindIs(s, j + 1, NotBlank, k);
    r := if k == |s| then NoName(Partial) else NameScan(j, k);
  }

  /** Cuts the blanks off the end of a value. */
  method TrimValue(s: seq<Byte>, at: nat, len: nat) returns (n: nat)
    requires at + len <= |s|
    ensures at + n == TrimEnd(s, at, at + len)
  {
    n := len;
    while n != 0 && IsBlank(s[at + n - 1])
      invariant n <= len && TrimEnd(s, at, at + n) == TrimEnd(s, at, at + len)
    {
      n := n - 1;
    }
  }

  /** The value of a line, up to its line end. */
  method ScanValue(s: seq<Byte>, at: nat, folded: bool, nameAt: nat, nameLen: nat, sse: bool) returns (r: Line)
    requires at <= |s|
    ensures r == ParseValue(s, at, folded, nameAt, nameLen)
  {
    hide IsControl, TrimEnd;
    var token := GetTokenToEol(s, at, sse);
    if token.NoToken? {
      return NoLine(token.error);
    }
    var len := TrimValue(s, at, token.len);
    r := Line(token.next, Header(folded, nameAt, nameLen, at, len));
  }

  /** One line of the block. */
  method ScanLine(s: seq<Byte>, i: nat, mayFold: bool, sse: bool) returns (r: Line)
    requires i < |s|
    ensures r == ParseLine(s, i, mayFold)
  {
    hide ParseValue, IsTokenChar;
    if mayFold && IsBlank(s[i]) {
      r := ScanValue(s, i, true, 0, 0, sse);
    } else {
      var name := ScanName(s, i, sse);
      if name.NoName? {
        return NoLine(name.error);
      }
      r := ScanValue(s, name.valueAt, false, i, name.nameEnd - i, sse);
    }
  }

  /** The loop over the lines: the return code, the count and the filled part of the array are
      those of the plain parser, and nothing behind the entry of the line being read is written. */
  method ParseHeaders(s: seq<Byte>, headers: array<Header>, maxHeaders: nat, sse: bool)
    returns (ret: int, num: nat)
    requires maxHeaders <= headers.Length
    modifies headers
    ensures var r := ParseBlock(s, maxHeaders);
            && ret == r.Code() && num == |r.headers| <= maxHeaders && headers[..num] == r.headers
    ensures forall k :: num < k < headers.Length ==> headers[k] == old(headers[k])
  {
    hide ParseFrom, ParseLine;
    num := 0;
    var i := 0;
    while true
      invariant i <= |s| && num <= maxHeaders
      invariant ParseBlock(s, maxHeaders) == ParseFrom(s, i, maxHeaders, headers[..num])
      invariant forall k :: num <= k < headers.Length ==> headers[k] == old(headers[k])
      decreases |s| - i
    {
      if i == |s| {
        ParseFromEnd(s, maxHeaders, headers[..num]);
        return -2, num;
      }
      ParseFromStep(s, i, maxHeaders, headers[..num]);
      if s[i] == CR || s[i] == LF {
        var eol := EndOfLine(s, i);
        return (if eol.Eol? then eol.next else eol.error.Code()), num;
      }
      if num == maxHeaders {
        return -1, num;
      }
      var line := ScanLine(s, i, num != 0, sse);
      if line.NoLine? {
        return line.error.Code(), num;
      }
      ghost var done := headers[..num];
      headers[num] := line.header;
      assert headers[..num + 1] == done + [line.header];
      i, num := line.next, num + 1;
    }
  }

  lemma ParseFromEnd(s: seq<Byte>, maxHeaders: nat, done: seq<Header>)
    ensures ParseFrom(s, |s|, maxHeaders, done) == Failed(Partial, done)
  {
  }

  /** The completeness check, from three bytes before what was seen last time. */
  method CheckComplete(s: seq<Byte>, lastLen: nat) returns (r: Check)
    requires lastLen <= |s|
    ensures r == IsComplete(s, ResumeAt(lastLen), 0)
  {
    var i, count := if lastLen < 3 then 0 else lastLen - 3, 0;
    while true
      invariant i <= |s| && 0 <= count < 2
      invariant IsComplete(s, i, count) == IsComplete(s, ResumeAt(lastLen), 0)
      decreases |s| - i
    {
      if i == |s| {
        return NotFound(Partial);
      }
      if s[i] == CR {
        if i + 1 == |s| {
          return NotFound(Partial);
        }
        if s[i + 1] != LF {
          return NotFound(Malformed);
        }
        i, count := i + 2, count + 1;
      } else if s[i] == LF {
        i, count := i + 1, count + 1;
      } else {
        i, count := i + 1, 0;
      }
      if count == 2 {
        return Found(i);
      }
    }
  }

  /** `phr_parse_headers`. */
  method PhrParseHeaders(s: seq<Byte>, headers: array<Header>, maxHeaders: nat, lastLen: nat, sse: bool)
    returns (ret: int, num: nat)
    requires maxHeaders <= headers.Length && lastLen <= |s|
    modifies headers
    ensures var r := ParseResumed(s, maxHeaders, lastLen);
            && ret == r.Code() && num == |r.headers| <= maxHeaders && headers[..num] == r.headers
  {
    if lastLen != 0 {
      var check := CheckComplete(s, lastLen);
      if check.NotFound? {
        return check.error.Code(), 0;
      }
    }
    ret, num := ParseHeaders(s, headers, maxHeaders, sse);
  }
}
