/**
 What the header parser computes, as a plain left-to-right reading of the bytes, and the laws that
 follow: appending bytes never changes a final answer, and the quick completeness check never
 refuses a block that the parser would accept.
 */
module HeaderSpec {
  import opened Bytes

  const COLON: Byte := 58
  const DEL: Byte := 127

  predicate IsBlank(b: Byte) {
    b == SP || b == HT
  }

  predicate NotBlank(b: Byte) {
    !IsBlank(b)
  }

  /** The bytes that end a value: control characters other than HT, and DEL. */
  predicate IsControl(b: Byte) {
    (b < 32 && b != HT) || b == DEL
  }

  /** The token characters of section 3.2.6 of RFC 7230. */
  predicate IsTokenChar(b: Byte) {
    || b == 0x21 || 0x23 <= b <= 0x27 || 0x2a <= b <= 0x2b || 0x2d <= b <= 0x2e
    || 0x30 <= b <= 0x39 || 0x41 <= b <= 0x5a || 0x5e <= b <= 0x7a || b == 0x7c || b == 0x7e
  }

  predicate EndsName(b: Byte) {
    b == COLON || !IsTokenChar(b)
  }

  datatype Error = Malformed | Partial {
    function Code(): int {
      match this
      case Malformed => -1
      case Partial => -2
    }
  }

  /** Where the name and the value of one header lie in the input; a folded line has no name. */
  datatype Header = Header(folded: bool, nameAt: nat, nameLen: nat, valueAt: nat, valueLen: nat)

  datatype Eol = Eol(next: nat) | NoEol(error: Error)

  datatype Line = Line(next: nat, header: Header) | NoLine(error: Error)

  datatype Parse = Accepted(end: nat, headers: seq<Header>) | Failed(error: Error, headers: seq<Header>) {
    function Code(): int {
      match this
      case Accepted(end, _) => end
      case Failed(e, _) => e.Code()
    }
  }

  /** CR LF or a bare LF. */
  function EndOfLine(s: seq<Byte>, e: nat): (r: Eol)
    requires e <= |s|
    ensures r.Eol? ==> e < r.next <= |s|
  {
    if e == |s| then NoEol(Partial)
    else if s[e] == CR then
      if e + 1 == |s| then NoEol(Partial)
      else if s[e + 1] == LF then Eol(e + 2) else NoEol(Malformed)
    else if s[e] == LF then Eol(e + 1)
    else NoEol(Malformed)
  }

  /** The end of `s[lo..hi]` without its trailing blanks. */
  function TrimEnd(s: seq<Byte>, lo: nat, hi: nat): (v: nat)
    requires lo <= hi <= |s|
    ensures lo <= v <= hi
    ensures forall k :: v <= k < hi ==> IsBlank(s[k])
    ensures v > lo ==> !IsBlank(s[v - 1])
    decreases hi
  {
    if lo < hi && IsBlank(s[hi - 1]) then TrimEnd(s, lo, hi - 1) else hi
  }

  function ParseValue(s: seq<Byte>, at: nat, folded: bool, nameAt: nat, nameLen: nat): (r: Line)
    requires at <= |s|
    ensures r.Line? ==> at < r.next <= |s|
  {
    var e := Find(s, at, IsControl);
    match EndOfLine(s, e)
    case NoEol(error) => NoLine(error)
    case Eol(next) => Line(next, Header(folded, nameAt, nameLen, at, TrimEnd(s, at, e) - at))
  }

  function ParseLine(s: seq<Byte>, i: nat, mayFold: bool): (r: Line)
    requires i < |s|
    ensures r.Line? ==> i < r.next <= |s|
  {
    if mayFold && IsBlank(s[i]) then ParseValue(s, i, true, 0, 0)
    else
      var j := Find(s, i, EndsName);
      if j == |s| then NoLine(Partial)
      else if s[j] != COLON || j == i then NoLine(Malformed)
      else
        var k := Find(s, j + 1, NotBlank);
        if k == |s| then NoLine(Partial)
        else ParseValue(s, k, false, i, j - i)
  }

  /** The lines from `i` on; `done` holds the headers already read. */
  function ParseFrom(s: seq<Byte>, i: nat, maxHeaders: nat, done: seq<Header>): (r: Parse)
    requires i <= |s|
    ensures r.Accepted? ==> i < r.end <= |s|
    decreases |s| - i
  {
    if i == |s| then Failed(Partial, done)
    else if s[i] == CR || s[i] == LF then
      match EndOfLine(s, i)
      case Eol(next) => Accepted(next, done)
      case NoEol(error) => Failed(error, done)
    else if |done| == maxHeaders then Failed(Malformed, done)
    else
      match ParseLine(s, i, done != [])
      case NoLine(error) => Failed(error, done)
      case Line(next, h) => ParseFrom(s, next, maxHeaders, done + [h])
  }

  function ParseBlock(s: seq<Byte>, maxHeaders: nat): Parse {
    ParseFrom(s, 0, maxHeaders, [])
  }

  /** One round of the parser's loop. */
  lemma ParseFromStep(s: seq<Byte>, i: nat, maxHeaders: nat, done: seq<Header>)
    requires i < |s|
    ensures ParseFrom(s, i, maxHeaders, done) ==
            if s[i] == CR || s[i] == LF then
              var eol := EndOfLine(s, i);
              if eol.Eol? then Accepted(eol.next, done) else Failed(eol.error, done)
            else if |done| == maxHeaders then Failed(Malformed, done)
            else
              var line := ParseLine(s, i, done != []);
              if line.NoLine? then Failed(line.error, done)
              else ParseFrom(s, line.next, maxHeaders, done + [line.header])
  {
  }

  lemma ParseNamedLine(s: seq<Byte>, i: nat, mayFold: bool, j: nat, k: nat)
    requires i < j < k < |s| && !IsBlank(s[i])
    requires Find(s, i, EndsName) == j && s[j] == COLON && Find(s, j + 1, NotBlank) == k
    ensures ParseLine(s, i, mayFold) == ParseValue(s, k, false, i, j - i)
  {
  }

  // ----- Prefix stability -----

  lemma EndOfLineExtend(s: seq<Byte>, t: seq<Byte>, e: nat)
    requires e <= |s| && EndOfLine(s, e) != NoEol(Partial)
    ensures EndOfLine(s + t, e) == EndOfLine(s, e)
  {
  }

  lemma {:induction false} TrimEndExtend(s: seq<Byte>, t: seq<Byte>, lo: nat, hi: nat)
    requires lo <= hi <= |s|
    ensures TrimEnd(s + t, lo, hi) == TrimEnd(s, lo, hi)
    decreases hi
  {
    if lo < hi && IsBlank(s[hi - 1]) {
      TrimEndExtend(s, t, lo, hi - 1);
    }
  }

  lemma ParseValueExtend(s: seq<Byte>, t: seq<Byte>, at: nat, folded: bool, nameAt: nat, nameLen: nat)
    requires at <= |s| && ParseValue(s, at, folded, nameAt, nameLen) != NoLine(Partial)
    ensures ParseValue(s + t, at, folded, nameAt, nameLen) == ParseValue(s, at, folded, nameAt, nameLen)
  {
    var e := Find(s, at, IsControl);
    FindExtend(s, t, at, IsControl);
    EndOfLineExtend(s, t, e);
    TrimEndExtend(s, t, at, e);
  }

  lemma ParseLineExtend(s: seq<Byte>, t: seq<Byte>, i: nat, mayFold: bool)
    requires i < |s| && ParseLine(s, i, mayFold) != NoLine(Partial)
    ensures ParseLine(s + t, i, mayFold) == ParseLine(s, i, mayFold)
  {
    hide ParseValue, Find, IsTokenChar;
    if mayFold && IsBlank(s[i]) {
      ParseValueExtend(s, t, i, true, 0, 0);
    } else {
      var j := Find(s, i, EndsName);
      FindExtend(s, t, i, EndsName);
      if s[j] == COLON && j != i {
        var k := Find(s, j + 1, NotBlank);
        FindExtend(s, t, j + 1, NotBlank);
        ParseValueExtend(s, t, k, false, i, j - i);
      }
    }
  }

  lemma {:induction false} ParseFromExtend(s: seq<Byte>, t: seq<Byte>, i: nat, maxHeaders: nat, done: seq<Header>)
    requires i <= |s|
    requires var r := ParseFrom(s, i, maxHeaders, done); r.Accepted? || r.error != Partial
    ensures ParseFrom(s + t, i, maxHeaders, done) == ParseFrom(s, i, maxHeaders, done)
    decreases |s| - i
  {
    if s[i] == CR || s[i] == LF {
      EndOfLineExtend(s, t, i);
    } else if |done| != maxHeaders {
      ParseLineExtend(s, t, i, done != []);
      match ParseLine(s, i, done != [])
      case NoLine(_) =>
      case Line(next, h) => ParseFromExtend(s, t, next, maxHeaders, done + [h]);
    }
  }

  /** Any answer but "incomplete" is final. */
  lemma PrefixStable(s: seq<Byte>, t: seq<Byte>, maxHeaders: nat)
    requires ParseBlock(s, maxHeaders).Code() != -2
    ensures ParseBlock(s + t, maxHeaders) == ParseBlock(s, maxHeaders)
  {
    ParseFromExtend(s, t, 0, maxHeaders, []);
  }

  /** Every proper prefix of an accepted block is incomplete. */
  lemma ProperPrefixIncomplete(s: seq<Byte>, maxHeaders: nat, k: nat)
    requires ParseBlock(s, maxHeaders).Accepted? && k < ParseBlock(s, maxHeaders).end
    ensures ParseBlock(s[..k], maxHeaders).Code() == -2
  {
    assert s[..k] + s[k..] == s;
    if ParseBlock(s[..k], maxHeaders).Code() != -2 {
      PrefixStable(s[..k], s[k..], maxHeaders);
    }
  }

  // ----- Malformed or only incomplete -----

  /** An unfinished value can be finished by a line end. */
  lemma CompleteValue(s: seq<Byte>, at: nat, folded: bool, nameAt: nat, nameLen: nat)
    requires at <= |s| && ParseValue(s, at, folded, nameAt, nameLen) == NoLine(Partial)
    ensures var line := ParseValue(s + [LF, LF], at, folded, nameAt, nameLen); line.Line? && line.next == |s| + 1
  {
    FindIs(s + [LF, LF], at, IsControl, Find(s, at, IsControl));
  }

  lemma EmptyValue(s: seq<Byte>, at: nat, folded: bool, nameAt: nat, nameLen: nat)
    requires at < |s| && s[at] == LF
    ensures var line := ParseValue(s, at, folded, nameAt, nameLen); line.Line? && line.next == at + 1
  {
    FindIs(s, at, IsControl, at);
  }

  /** An unfinished name can be finished by a colon and an empty value. */
  lemma CompleteName(s: seq<Byte>, i: nat, mayFold: bool)
    requires i < |s| && !(mayFold && IsBlank(s[i])) && Find(s, i, EndsName) == |s|
    ensures var line := ParseLine(s + [COLON, LF, LF], i, mayFold); line.Line? && line.next == |s| + 2
  {
    hide ParseValue, IsTokenChar;
    var s' := s + [COLON, LF, LF];
    FindIs(s', i, EndsName, |s|);
    FindIs(s', |s| + 1, NotBlank, |s| + 1);
    EmptyValue(s', |s| + 1, false, i, |s| - i);
  }

  /** An unfinished line with its colon can be finished by a line end. */
  lemma CompleteNamed(s: seq<Byte>, i: nat, mayFold: bool, j: nat)
    requires i < |s| && !(mayFold && IsBlank(s[i])) && ParseLine(s, i, mayFold) == NoLine(Partial)
    requires i < j == Find(s, i, EndsName) < |s| && s[j] == COLON
    ensures var line := ParseLine(s + [LF, LF], i, mayFold); line.Line? && line.next == |s| + 1
  {
    hide ParseValue, ParseLine;
    var s', k := s + [LF, LF], Find(s, j + 1, NotBlank);
    assert !EndsName(s[i]);
    FindExtend(s, [LF, LF], i, EndsName);
    FindIs(s', j + 1, NotBlank, k);
    ParseNamedLine(s', i, mayFold, j, k);
    if k == |s| {
      EmptyValue(s', k, false, i, j - i);
    } else {
      ParseNamedLine(s, i, mayFold, j, k);
      CompleteValue(s, k, false, i, j - i);
    }
  }

  /** An unfinished line can be finished so that a blank line is left behind it. */
  lemma CompleteLine(s: seq<Byte>, i: nat, mayFold: bool) returns (t: seq<Byte>)
    requires i < |s| && ParseLine(s, i, mayFold) == NoLine(Partial)
    ensures var line := ParseLine(s + t, i, mayFold);
            t != [] && t[|t| - 1] == LF && line.Line? && line.next == |s + t| - 1
  {
    hide ParseValue, IsTokenChar;
    t := [LF, LF];
    if mayFold && IsBlank(s[i]) {
      CompleteValue(s, i, true, 0, 0);
    } else {
      var j := Find(s, i, EndsName);
      if j == |s| {
        t := [COLON, LF, LF];
        CompleteName(s, i, mayFold);
      } else {
        CompleteNamed(s, i, mayFold, j);
      }
    }
  }

  lemma {:induction false} CompleteBlock(s: seq<Byte>, i: nat, maxHeaders: nat, done: seq<Header>)
    returns (t: seq<Byte>)
    requires i <= |s| && ParseFrom(s, i, maxHeaders, done).Failed?
    requires ParseFrom(s, i, maxHeaders, done).error == Partial
    ensures ParseFrom(s + t, i, maxHeaders, done).Accepted?
    decreases |s| - i
  {
    hide ParseLine;
    t := [LF];
    if i < |s| && s[i] != CR && s[i] != LF {
      var line := ParseLine(s, i, done != []);
      if line.NoLine? {
        t := CompleteLine(s, i, done != []);
        ParseFromStep(s + t, i, maxHeaders, done);
      } else {
        t := CompleteBlock(s, line.next, maxHeaders, done + [line.header]);
        ParseLineExtend(s, t, i, done != []);
      }
    }
  }

  /** The two failures mean what they say: -2 exactly when more input can still make the block acceptable,
      -1 exactly when none can. */
  lemma IncompleteIff(s: seq<Byte>, maxHeaders: nat)
    ensures ParseBlock(s, maxHeaders).Code() == -2 <==>
            !ParseBlock(s, maxHeaders).Accepted? && exists t :: ParseBlock(s + t, maxHeaders).Accepted?
    ensures ParseBlock(s, maxHeaders).Code() == -1 <==> forall t :: !ParseBlock(s + t, maxHeaders).Accepted?
  {
    hide ParseFrom;
    assert s + [] == s;
    if ParseBlock(s, maxHeaders).Code() == -2 {
      var t := CompleteBlock(s, 0, maxHeaders, []);
      assert ParseBlock(s + t, maxHeaders).Accepted?;
    } else {
      forall t ensures ParseBlock(s + t, maxHeaders) == ParseBlock(s, maxHeaders) {
        PrefixStable(s, t, maxHeaders);
      }
    }
  }

  // ----- The quick completeness check -----

  datatype Check = Found(pos: nat) | NotFound(error: Error)

  /** Looks for two line ends in a row; `count` of them have just been seen. */
  function IsComplete(s: seq<Byte>, i: nat, count: nat): Check
    requires i <= |s| && count < 2
    decreases |s| - i
  {
    if i == |s| then NotFound(Partial)
    else if s[i] == CR || s[i] == LF then
      match EndOfLine(s, i)
      case NoEol(error) => NotFound(error)
      case Eol(next) => if count == 1 then Found(next) else IsComplete(s, next, 1)
    else IsComplete(s, i + 1, 0)
  }

  function ResumeAt(lastLen: nat): nat {
    if lastLen < 3 then 0 else lastLen - 3
  }

  /** `phr_parse_headers`: the check first, when part of the input has been seen before. */
  function ParseResumed(s: seq<Byte>, maxHeaders: nat, lastLen: nat): Parse
    requires lastLen <= |s|
  {
    if lastLen == 0 then ParseBlock(s, maxHeaders)
    else
      match IsComplete(s, ResumeAt(lastLen), 0)
      case NotFound(error) => Failed(error, [])
      case Found(_) => ParseBlock(s, maxHeaders)
  }

  lemma {:induction false} CheckExtend(s: seq<Byte>, t: seq<Byte>, i: nat, count: nat)
    requires i <= |s| && count < 2 && IsComplete(s, i, count) != NotFound(Partial)
    ensures IsComplete(s + t, i, count) == IsComplete(s, i, count)
    decreases |s| - i
  {
    if s[i] == CR || s[i] == LF {
      EndOfLineExtend(s, t, i);
      var eol := EndOfLine(s, i);
      if eol.Eol? && count == 0 {
        CheckExtend(s, t, eol.next, 1);
      }
    } else {
      CheckExtend(s, t, i + 1, 0);
    }
  }

  lemma {:induction false} CompleteCheck(s: seq<Byte>, i: nat, count: nat) returns (t: seq<Byte>)
    requires i <= |s| && count < 2 && IsComplete(s, i, count) == NotFound(Partial)
    ensures IsComplete(s + t, i, count).Found?
    decreases |s| - i
  {
    t := [LF, LF];
    if i == |s| {
      if count == 0 {
        assert IsComplete(s + t, i + 1, 1).Found?;
      }
    } else if s[i] != CR && s[i] != LF {
      t := CompleteCheck(s, i + 1, 0);
    } else {
      var eol := EndOfLine(s, i);
      if eol.Eol? {
        t := CompleteCheck(s, eol.next, 1);
        EndOfLineExtend(s, t, i);
      } else if count == 0 {
        assert IsComplete(s + t, i + 2, 1).Found?;
      }
    }
  }

  /** The check, too, reports -2 exactly when more input can still make it succeed. */
  lemma CheckIncompleteIff(s: seq<Byte>, i: nat)
    requires i <= |s|
    ensures IsComplete(s, i, 0) == NotFound(Partial) <==>
            !IsComplete(s, i, 0).Found? && exists t :: IsComplete(s + t, i, 0).Found?
  {
    if IsComplete(s, i, 0) == NotFound(Partial) {
      var t := CompleteCheck(s, i, 0);
      assert IsComplete(s + t, i, 0).Found?;
    } else {
      forall t ensures IsComplete(s + t, i, 0) == IsComplete(s, i, 0) {
        CheckExtend(s, t, i, 0);
      }
    }
  }

  lemma {:induction false} CheckIsLocal(s: seq<Byte>, s': seq<Byte>, i: nat, count: nat)
    requires i <= |s| == |s'| && count < 2 && forall k :: i <= k < |s| ==> s[k] == s'[k]
    ensures IsComplete(s, i, count) == IsComplete(s', i, count)
    decreases |s| - i
  {
    if i < |s| {
      if s[i] != CR && s[i] != LF {
        CheckIsLocal(s, s', i + 1, 0);
      } else if EndOfLine(s, i).Eol? && count == 0 {
        CheckIsLocal(s, s', EndOfLine(s, i).next, 1);
      }
    }
  }

  /** Resuming does not look at anything more than three bytes before what was seen last time. */
  lemma LooksThreeBack(s: seq<Byte>, s': seq<Byte>, lastLen: nat)
    requires lastLen <= |s| == |s'| && forall k :: 0 <= k < |s| && lastLen - 3 <= k ==> s[k] == s'[k]
    ensures IsComplete(s, ResumeAt(lastLen), 0) == IsComplete(s', ResumeAt(lastLen), 0)
  {
    CheckIsLocal(s, s', ResumeAt(lastLen), 0);
  }

  /** Bytes that are not line ends reset the count. */
  lemma {:induction false} CheckSkipsText(s: seq<Byte>, q: nat, e: nat, count: nat)
    requires q < e <= |s| && count < 2 && forall k :: q <= k < e ==> s[k] != CR && s[k] != LF
    ensures IsComplete(s, q, count) == IsComplete(s, e, 0)
    decreases e - q
  {
    if q + 1 < e {
      CheckSkipsText(s, q + 1, e, 0);
    }
  }

  /** A header line is text up to `e`, then its line end. */
  ghost predicate LineShape(s: seq<Byte>, i: nat, e: nat, next: nat) {
    && i < e < |s| && (forall k :: i <= k < e ==> s[k] != CR && s[k] != LF)
    && EndOfLine(s, e) == Eol(next)
  }

  lemma LineHasShape(s: seq<Byte>, i: nat, mayFold: bool) returns (e: nat)
    requires i < |s| && s[i] != CR && s[i] != LF && ParseLine(s, i, mayFold).Line?
    ensures LineShape(s, i, e, ParseLine(s, i, mayFold).next)
  {
    if mayFold && IsBlank(s[i]) {
      e := Find(s, i, IsControl);
    } else {
      var j := Find(s, i, EndsName);
      var k := Find(s, j + 1, NotBlank);
      e := Find(s, k, IsControl);
    }
  }

  /** From anywhere in a header line, the check arrives at the next line having seen one line end. */
  lemma CheckReadsLine(s: seq<Byte>, i: nat, e: nat, next: nat, q: nat, count: nat)
    requires LineShape(s, i, e, next) && i <= q < next && count < 2 && (count == 1 ==> q == i)
    ensures IsComplete(s, q, count) == IsComplete(s, next, 1)
  {
    if q < e {
      CheckSkipsText(s, q, e, count);
    }
  }

  /** Started at or before the last header line's end, the check finds the end of the block. */
  lemma {:induction false} CheckFindsEnd(s: seq<Byte>, i: nat, maxHeaders: nat, done: seq<Header>, q: nat, count: nat)
    requires i <= q <= |s| && count < 2 && (count == 1 ==> q == i)
    requires var r := ParseFrom(s, i, maxHeaders, done); r.Accepted? && (count == 1 || q + 3 <= r.end)
    requires count == 0 && q == i ==> s[i] != CR && s[i] != LF
    ensures IsComplete(s, q, count) == Found(ParseFrom(s, i, maxHeaders, done).end)
    decreases |s| - i
  {
    if s[i] != CR && s[i] != LF {
      var e := LineHasShape(s, i, done != []);
      var line := ParseLine(s, i, done != []);
      if q < line.next {
        CheckReadsLine(s, i, e, line.next, q, count);
        CheckFindsEnd(s, line.next, maxHeaders, done + [line.header], line.next, 1);
      } else {
        CheckFindsEnd(s, line.next, maxHeaders, done + [line.header], q, 0);
      }
    }
  }

  /** The quick check never refuses a block with at least one header whose end has not been passed:
      resuming gives the parser's own answer. */
  lemma ResumingIsSound(s: seq<Byte>, maxHeaders: nat, lastLen: nat)
    requires var r := ParseBlock(s, maxHeaders); r.Accepted? && r.headers != [] && lastLen <= r.end
    ensures ParseResumed(s, maxHeaders, lastLen) == ParseBlock(s, maxHeaders)
  {
    BlockIsLong(s, maxHeaders);
    CheckFindsEnd(s, 0, maxHeaders, [], ResumeAt(lastLen), 0);
  }

  /** A first call has nothing to resume from and goes straight to the parser. */
  lemma FirstCallParses(s: seq<Byte>, maxHeaders: nat)
    ensures ParseResumed(s, maxHeaders, 0) == ParseBlock(s, maxHeaders)
  {
  }

  /** A refusal while resuming is final: no further input makes the parser accept a block with a header
      that ends at or beyond what was seen before. */
  lemma RefusalIsFinal(s: seq<Byte>, maxHeaders: nat, lastLen: nat, t: seq<Byte>)
    requires 0 < lastLen <= |s| && ParseResumed(s, maxHeaders, lastLen).Code() == -1
    ensures var r := ParseBlock(s + t, maxHeaders); r.Accepted? && r.headers != [] ==> r.end < lastLen
  {
    hide ParseFrom;
    var r := ParseBlock(s + t, maxHeaders);
    if r.Accepted? && r.headers != [] && lastLen <= r.end {
      ResumingIsSound(s + t, maxHeaders, lastLen);
      if IsComplete(s, ResumeAt(lastLen), 0).Found? {
        PrefixStable(s, t, maxHeaders);
      } else {
        CheckExtend(s, t, ResumeAt(lastLen), 0);
      }
      assert false;
    }
  }

  /** A block with a header takes at least three bytes. */
  lemma BlockIsLong(s: seq<Byte>, maxHeaders: nat)
    requires var r := ParseBlock(s, maxHeaders); r.Accepted? && r.headers != []
    ensures ParseBlock(s, maxHeaders).end >= 3
  {
    if s[0] != CR && s[0] != LF {
      var e := LineHasShape(s, 0, false);
    }
  }

  // ----- When the check agrees with the parser -----

  /** At `p` two line ends in a row, and no stray CR from `i` up to there. */
  ghost predicate TwoEndsAt(s: seq<Byte>, i: nat, p: nat) {
    && i <= p < |s| && EndOfLine(s, p).Eol? && EndOfLine(s, EndOfLine(s, p).next).Eol?
    && forall k :: i <= k < p && s[k] == CR ==> s[k + 1] == LF
  }

  lemma {:induction false} CheckFindsTwoEnds(s: seq<Byte>, i: nat, count: nat, p: nat)
    requires count < 2 && TwoEndsAt(s, i, p)
    ensures IsComplete(s, i, count).Found?
    decreases |s| - i
  {
    if i < p {
      if s[i] != CR && s[i] != LF {
        CheckFindsTwoEnds(s, i + 1, 0, p);
      } else if count == 0 {
        var next := EndOfLine(s, i).next;
        if next <= p {
          CheckFindsTwoEnds(s, next, 1, p);
        }
      }
    }
  }

  lemma {:induction false} FoundTwoEnds(s: seq<Byte>, i: nat, count: nat) returns (p: nat)
    requires i <= |s| && count < 2 && IsComplete(s, i, count).Found?
    ensures TwoEndsAt(s, i, p) || (count == 1 && EndOfLine(s, i).Eol?)
    decreases |s| - i
  {
    p := i;
    if s[i] != CR && s[i] != LF {
      p := FoundTwoEnds(s, i + 1, 0);
    } else if count == 0 {
      p := FoundTwoEnds(s, EndOfLine(s, i).next, 1);
      if !TwoEndsAt(s, EndOfLine(s, i).next, p) {
        p := i;
      }
    }
  }

  /** The check succeeds exactly on inputs with two line ends in a row and no stray CR before them. */
  lemma CheckSucceedsIff(s: seq<Byte>, i: nat)
    requires i <= |s|
    ensures IsComplete(s, i, 0).Found? <==> exists p :: TwoEndsAt(s, i, p)
  {
    if IsComplete(s, i, 0).Found? {
      var p := FoundTwoEnds(s, i, 0);
    }
    if p :| TwoEndsAt(s, i, p) {
      CheckFindsTwoEnds(s, i, 0, p);
    }
  }

  /** For every accepted block that does not end before `lastLen`, whatever follows it, resuming gives
      the parser's answer if and only if the input does not start with its blank line, or two line ends
      follow each other somewhere in it behind no stray CR.  The blank line alone is refused as incomplete. */
  lemma ResumingAgreesIff(s: seq<Byte>, maxHeaders: nat, lastLen: nat)
    requires ParseBlock(s, maxHeaders).Accepted? && 0 < lastLen <= ParseBlock(s, maxHeaders).end
    ensures ParseResumed(s, maxHeaders, lastLen) == ParseBlock(s, maxHeaders) <==>
            (s[0] != CR && s[0] != LF) || exists p :: TwoEndsAt(s, 0, p)
    ensures (s[0] == CR || s[0] == LF) && ParseBlock(s, maxHeaders).end == |s| ==>
              ParseResumed(s, maxHeaders, lastLen).Code() == -2
  {
    if s[0] != CR && s[0] != LF {
      HeadersOnlyGrow(s, 0, maxHeaders, []);
      ResumingIsSound(s, maxHeaders, lastLen);
    } else {
      CheckSucceedsIff(s, 0);
      assert IsComplete(s, 0, 0) == IsComplete(s, ParseBlock(s, maxHeaders).end, 1);
    }
  }

  /** Headers already read stay at the front, and each further line adds one. */
  lemma {:induction false} HeadersOnlyGrow(s: seq<Byte>, i: nat, maxHeaders: nat, done: seq<Header>)
    requires i <= |s|
    ensures done <= ParseFrom(s, i, maxHeaders, done).headers
    ensures var r := ParseFrom(s, i, maxHeaders, done);
            r.Accepted? && r.headers == done ==> s[i] == CR || s[i] == LF
    decreases |s| - i
  {
    if i < |s| && s[i] != CR && s[i] != LF && |done| != maxHeaders {
      match ParseLine(s, i, done != [])
      case NoLine(_) =>
      case Line(next, h) => HeadersOnlyGrow(s, next, maxHeaders, done + [h]);
    }
  }

  /** The failing family starts with the empty block CR LF after its first byte was seen. */
  lemma EmptyBlockIsRefused()
    ensures ParseBlock([CR, LF], 0) == Accepted(2, [])
    ensures ParseResumed([CR, LF], 0, 1) == Failed(Partial, [])
  {
    assert EndOfLine([CR, LF], 0) == Eol(2);
    assert IsComplete([CR, LF], 2, 1) == NotFound(Partial);
  }
}
