/**
 The chat session's reader: cuts the received stream into lines, whatever the sizes of the reads.
 */
module ChatReader {
  import opened Bytes
  import opened StreamBuffers

  const READ_SIZE: nat := 1024

  predicate IsNewline(b: Byte) {
    b == LF
  }

  /** The terminated lines of a stream, each with its newline, and what follows the last of them. */
  function Lines(s: seq<Byte>): seq<seq<Byte>> {
    var j := Find(s, 0, IsNewline);
    if j == |s| then [] else [s[..j + 1]] + Lines(s[j + 1..])
  }

  function Tail(s: seq<Byte>): seq<Byte> {
    var j := Find(s, 0, IsNewline);
    if j == |s| then s else Tail(s[j + 1..])
  }

  // ----- What lines are -----

  ghost predicate IsLine(line: seq<Byte>) {
    line != [] && line[|line| - 1] == LF && LF !in line[..|line| - 1]
  }

  /** A line followed by anything is cut off first. */
  lemma LineFirst(line: seq<Byte>, rest: seq<Byte>)
    requires IsLine(line)
    ensures Lines(line + rest) == [line] + Lines(rest) && Tail(line + rest) == Tail(rest)
  {
    var s := line + rest;
    forall k | 0 <= k < |line| - 1
      ensures !IsNewline(s[k])
    {
      assert s[k] == line[..|line| - 1][k];
    }
    FindIs(s, 0, IsNewline, |line| - 1);
    assert s[..|line|] == line && s[|line|..] == rest;
  }

  lemma NoLine(s: seq<Byte>)
    requires LF !in s
    ensures Lines(s) == [] && Tail(s) == s
  {
    FindIs(s, 0, IsNewline, |s|);
  }

  lemma FirstLine(s: seq<Byte>)
    ensures var j := Find(s, 0, IsNewline);
            if j == |s| then LF !in s else IsLine(s[..j + 1])
  {
  }

  /** The lines and the tail are the stream cut at its newlines, and there is no other way to cut it. */
  lemma {:induction false} CutIsUnique(s: seq<Byte>, lines: seq<seq<Byte>>, tail: seq<Byte>)
    ensures lines == Lines(s) && tail == Tail(s) <==>
            s == Concat(lines) + tail && LF !in tail && forall i :: 0 <= i < |lines| ==> IsLine(lines[i])
    decreases |s|, |lines|
  {
    if s == Concat(lines) + tail && LF !in tail && forall i :: 0 <= i < |lines| ==> IsLine(lines[i]) {
      CutForward(s, lines, tail);
    }
    CutBack(s);
  }

  lemma {:induction false} CutForward(s: seq<Byte>, lines: seq<seq<Byte>>, tail: seq<Byte>)
    requires s == Concat(lines) + tail && LF !in tail && forall i :: 0 <= i < |lines| ==> IsLine(lines[i])
    ensures lines == Lines(s) && tail == Tail(s)
    decreases lines
  {
    if lines == [] {
      assert s == tail;
      NoLine(s);
    } else {
      var rest := Concat(lines[1..]) + tail;
      Assoc(lines[0], Concat(lines[1..]), tail);
      CutForward(rest, lines[1..], tail);
      LineFirst(lines[0], rest);
    }
  }

  lemma {:induction false} CutBack(s: seq<Byte>)
    ensures s == Concat(Lines(s)) + Tail(s) && LF !in Tail(s)
    ensures forall i :: 0 <= i < |Lines(s)| ==> IsLine(Lines(s)[i])
    decreases |s|
  {
    hide Lines, Tail;
    var j := Find(s, 0, IsNewline);
    FirstLine(s);
    if j < |s| {
      var line, rest := s[..j + 1], s[j + 1..];
      assert s == line + rest;
      CutBack(rest);
      LineFirst(line, rest);
      assert Lines(s)[1..] == Lines(rest);
      Assoc(line, Concat(Lines(rest)), Tail(rest));
    } else {
      NoLine(s);
      assert [] + s == s;
    }
  }

  // ----- Segmentation -----

  /** More input only adds lines; the first of them starts with the old tail. */
  lemma {:induction false} LinesAppend(a: seq<Byte>, b: seq<Byte>)
    ensures Lines(a + b) == Lines(a) + Lines(Tail(a) + b)
    ensures Tail(a + b) == Tail(Tail(a) + b)
    decreases |a|
  {
    var j := Find(a, 0, IsNewline);
    FirstLine(a);
    if j < |a| {
      var line, rest := a[..j + 1], a[j + 1..];
      assert a == line + rest;
      Assoc(line, rest, b);
      LinesAppend(rest, b);
      LineFirst(line, rest);
      LineFirst(line, rest + b);
      Assoc([line], Lines(rest), Lines(Tail(rest) + b));
    } else {
      NoLine(a);
      assert [] + Lines(a + b) == Lines(a + b);
    }
  }

  function WithHead(head: seq<Byte>, lines: seq<seq<Byte>>): seq<seq<Byte>> {
    seq(|lines|, i requires 0 <= i < |lines| => head + lines[i])
  }

  /** The position of the first newline, or the length. */
  method FindNewline(str: seq<Byte>) returns (pos: nat)
    ensures pos == Find(str, 0, IsNewline)
  {
    pos := 0;
    while pos < |str| && str[pos] != LF
      invariant 0 <= pos <= |str| && forall k :: 0 <= k < pos ==> !IsNewline(str[k])
    {
      pos := pos + 1;
    }
    FindIs(str, 0, IsNewline, pos);
  }

  /** Cutting one more line off the front of what is left. */
  lemma OneMoreLine(all: seq<Byte>, lines: seq<seq<Byte>>, str: seq<Byte>, pos: nat)
    requires lines + Lines(str) == Lines(all) && Tail(str) == Tail(all)
    requires pos == Find(str, 0, IsNewline) < |str|
    ensures (lines + [str[..pos + 1]]) + Lines(str[pos + 1..]) == Lines(all) && Tail(str[pos + 1..]) == Tail(all)
  {
    hide Lines, Tail;
    var line := str[..pos + 1];
    FirstLine(str);
    assert str == line + str[pos + 1..];
    LineFirst(line, str[pos + 1..]);
    Assoc(lines, [line], Lines(str[pos + 1..]));
  }

  lemma HeadSnoc(head: seq<Byte>, lines: seq<seq<Byte>>, line: seq<Byte>, delivered: seq<seq<Byte>>)
    ensures delivered + WithHead(head, lines + [line]) == (delivered + WithHead(head, lines)) + [head + line]
  {
    assert WithHead(head, lines + [line]) == WithHead(head, lines) + [head + line];
    Assoc(delivered, WithHead(head, lines), [head + line]);
  }

  /** Cuts the lines out of the buffer, as the inner loop of the reader does. */
  method DeliverLines(sb: StreamBuffer, head: seq<Byte>, delivered: seq<seq<Byte>>)
    returns (messages: seq<seq<Byte>>)
    requires sb.Valid()
    modifies sb
    ensures sb.Valid() && sb.buffer == old(sb.buffer)
    ensures messages == delivered + WithHead(head, Lines(old(sb.View()).bytes))
    ensures sb.View().bytes == Tail(old(sb.View()).bytes)
  {
    hide Lines, Tail, WithHead, Step;
    messages := delivered;
    ghost var all := sb.View().bytes;
    ghost var lines := [];
    assert [] + Lines(all) == Lines(all);
    HeadNothing(head, delivered);
    while true
      invariant sb.Valid() && sb.buffer == old(sb.buffer)
      invariant lines + Lines(sb.View().bytes) == Lines(all) && Tail(sb.View().bytes) == Tail(all)
      invariant messages == delivered + WithHead(head, lines)
      decreases |sb.View().bytes|
    {
      var str := sb.buffer[sb.getPos..sb.putPos];
      var pos := FindNewline(str);
      if pos == |str| {
        FirstLine(str);
        NoLine(str);
        assert lines + [] == lines;
        return;
      }
      OneMoreLine(all, lines, str, pos);
      HeadSnoc(head, lines, str[..pos + 1], delivered);
      messages := messages + [head + str[..pos + 1]];
      lines := lines + [str[..pos + 1]];
      StepConsume(sb.View(), pos + 1);
      sb.ConsumeBytes(pos + 1);
    }
  }

  lemma HeadNothing(head: seq<Byte>, delivered: seq<seq<Byte>>)
    ensures delivered + WithHead(head, []) == delivered
  {
  }

  /** The memory a reader needs: a read's worth behind the longest unterminated line. */
  function Footprint(received: seq<Byte>, parts: seq<seq<Byte>>): nat
    decreases parts
  {
    if parts == [] then 128
    else Max(|Tail(received)| + 1024, Footprint(received + parts[0], parts[1..]))
  }

  lemma HeadsAppend(head: seq<Byte>, a: seq<seq<Byte>>, b: seq<seq<Byte>>)
    ensures WithHead(head, a) + WithHead(head, b) == WithHead(head, a + b)
  {
  }

  /** One round of the reader: what is received is appended, and the lines that are then complete are
      delivered. */
  method ReadOnce(sb: StreamBuffer, head: seq<Byte>, ghost received: seq<Byte>, part: seq<Byte>,
                  delivered: seq<seq<Byte>>)
    returns (messages: seq<seq<Byte>>)
    requires sb.Valid() && |part| <= READ_SIZE
    requires delivered == WithHead(head, Lines(received)) && sb.View().bytes == Tail(received)
    modifies sb, sb.buffer
    ensures sb.Valid() && (sb.buffer == old(sb.buffer) || fresh(sb.buffer))
    ensures messages == WithHead(head, Lines(received + part)) && sb.View().bytes == Tail(received + part)
    ensures sb.buffer.Length == Max(old(sb.buffer.Length), |Tail(received)| + READ_SIZE)
  {
    hide Lines, Tail, Step, WithHead;
    StepAppend(sb.View(), READ_SIZE, part);
    sb.AppendBytes(READ_SIZE, part);
    LinesAppend(received, part);
    HeadsAppend(head, Lines(received), Lines(Tail(received) + part));
    messages := DeliverLines(sb, head, delivered);
  }

  /** However the stream is cut into reads, exactly its lines are delivered, each behind the session's
      head, in order, and exactly the unterminated rest stays buffered. */
  method Reader(head: seq<Byte>, parts: seq<seq<Byte>>)
    returns (messages: seq<seq<Byte>>, rest: seq<Byte>, size: nat)
    requires forall i :: 0 <= i < |parts| ==> |parts[i]| <= 1024
    ensures messages == WithHead(head, Lines(Concat(parts)))
    ensures rest == Tail(Concat(parts))
    ensures size == Footprint([], parts)
  {
    hide Lines, Tail, Step, Concat;
    var sb := new StreamBuffer();
    messages := [];
    ghost var received: seq<Byte> := [];
    StartEmpty(parts);
    assert parts[0..] == parts;
    for k := 0 to |parts|
      invariant sb.Valid() && fresh(sb) && fresh(sb.buffer)
      invariant received == Concat(parts[..k])
      invariant messages == WithHead(head, Lines(received)) && sb.View().bytes == Tail(received)
      invariant sb.buffer.Length >= DELTA
      invariant Max(sb.buffer.Length, Footprint(received, parts[k..])) == Footprint([], parts)
    {
      var part := parts[k];
      assert parts[k..][0] == part && parts[k..][1..] == parts[k + 1..];
      messages := ReadOnce(sb, head, received, part, messages);
      assert parts[..k + 1] == parts[..k] + [part];
      ConcatSnoc(parts[..k], part);
      received := received + part;
    }
    assert parts[..|parts|] == parts && parts[|parts|..] == [];
    rest, size := sb.buffer[sb.getPos..sb.putPos], sb.buffer.Length;
  }

  lemma StartEmpty(parts: seq<seq<Byte>>)
    ensures Concat(parts[..0]) == [] && Lines([]) == [] && Tail([]) == []
  {
  }
}
