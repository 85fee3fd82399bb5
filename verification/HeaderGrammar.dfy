/**
 The header blocks that the parser accepts, written as a grammar, and the round trip between
 printing and parsing.
 */
module HeaderGrammar {
  import opened Bytes
  import opened HeaderSpec

  /** A line: a named field with the blanks around its value, or a folded continuation with the
      blanks behind its text; `cr` tells CR LF from a bare LF. */
  datatype Field =
    | Field(name: seq<Byte>, before: seq<Byte>, value: seq<Byte>, after: seq<Byte>, cr: bool)
    | Fold(text: seq<Byte>, after: seq<Byte>, cr: bool)

  ghost predicate All(s: seq<Byte>, p: Byte -> bool) {
    forall i :: 0 <= i < |s| ==> p(s[i])
  }

  predicate Plain(b: Byte) {
    !IsControl(b)
  }

  ghost predicate NoTrailingBlank(s: seq<Byte>) {
    s != [] ==> !IsBlank(s[|s| - 1])
  }

  ghost predicate ValidField(f: Field) {
    match f
    case Field(name, before, value, after, _) =>
      && name != [] && All(name, IsTokenChar) && All(before, IsBlank) && All(value, Plain) && All(after, IsBlank)
      && NoTrailingBlank(value) && (value != [] ==> !IsBlank(value[0])) && (value == [] ==> after == [])
    case Fold(text, after, _) =>
      && All(text, Plain) && All(after, IsBlank) && NoTrailingBlank(text)
      && text + after != [] && IsBlank((text + after)[0])
  }

  function PrintEol(cr: bool): seq<Byte> {
    if cr then [CR, LF] else [LF]
  }

  function PrintText(f: Field): seq<Byte> {
    match f
    case Field(name, before, value, after, _) => name + [COLON] + before + value + after
    case Fold(text, after, _) => text + after
  }

  function PrintField(f: Field): seq<Byte> {
    PrintText(f) + PrintEol(f.cr)
  }

  function PrintFields(fs: seq<Field>): seq<Byte> {
    if fs == [] then [] else PrintField(fs[0]) + PrintFields(fs[1..])
  }

  function PrintBlock(fs: seq<Field>, cr: bool): seq<Byte> {
    PrintFields(fs) + PrintEol(cr)
  }

  /** Where a field printed at `i` has its name and value. */
  function Place(f: Field, i: nat): Header {
    match f
    case Field(name, before, value, _, _) => Header(false, i, |name|, i + |name| + 1 + |before|, |value|)
    case Fold(text, _, _) => Header(true, 0, 0, i, |text|)
  }

  function Places(fs: seq<Field>, i: nat): seq<Header>
    decreases fs
  {
    if fs == [] then [] else [Place(fs[0], i)] + Places(fs[1..], i + |PrintField(fs[0])|)
  }

  /** `s` has `part` at position `i`. */
  ghost predicate At(s: seq<Byte>, i: nat, part: seq<Byte>) {
    i + |part| <= |s| && s[i..i + |part|] == part
  }

  lemma AtByte(s: seq<Byte>, i: nat, part: seq<Byte>, k: nat)
    requires At(s, i, part) && k < |part|
    ensures i + k < |s| && s[i + k] == part[k]
  {
    assert s[i..i + |part|][k] == part[k];
  }

  lemma AtSplit(s: seq<Byte>, i: nat, a: seq<Byte>, b: seq<Byte>)
    ensures At(s, i, a + b) <==> At(s, i, a) && At(s, i + |a|, b)
  {
    if At(s, i, a + b) {
      assert s[i..i + |a|] == (a + b)[..|a|];
      assert s[i + |a|..i + |a| + |b|] == (a + b)[|a|..];
    }
    if At(s, i, a) && At(s, i + |a|, b) {
      assert s[i..i + |a + b|] == s[i..i + |a|] + s[i + |a|..i + |a| + |b|];
    }
  }

  // ----- The alphabet -----

  /** The token characters of section 3.2.6 of RFC 7230. */
  predicate IsTchar(c: char) {
    c in "!#$%&'*+-.^_`|~" || '0' <= c <= '9' || 'A' <= c <= 'Z' || 'a' <= c <= 'z'
  }

  /** White space, visible characters, and the bytes above ASCII, as section 3.2 of RFC 7230 allows them in
      values. */
  predicate IsFieldText(c: char) {
    c in " \t" || '!' <= c <= '~' || '\U{80}' <= c
  }

  /** The parser's byte classes are those of the standard. */
  lemma AlphabetOfTheStandard(b: Byte)
    ensures IsTokenChar(b) <==> IsTchar(b as char)
    ensures IsBlank(b) <==> b as char in " \t"
    ensures !IsControl(b) <==> IsFieldText(b as char)
    ensures b == CR <==> b as char == '\r'
    ensures b == LF <==> b as char == '\n'
    ensures b == COLON <==> b as char == ':'
  {
    var c := b as char;
    assert c as int == b;
    if b < 0x30 {
      assert IsTokenChar(b) <==> c in "!#$%&'*+-.";
    } else {
      assert c in "!#$%&'*+-.^_`|~" <==> c in "^_`|~";
    }
  }

  // ----- Every block of the grammar is accepted -----

  lemma EolAt(s: seq<Byte>, e: nat, cr: bool)
    requires At(s, e, PrintEol(cr))
    ensures EndOfLine(s, e) == Eol(e + |PrintEol(cr)|)
    ensures e < |s| && (s[e] == CR || s[e] == LF)
  {
    AtByte(s, e, PrintEol(cr), 0);
    if cr {
      AtByte(s, e, PrintEol(cr), 1);
    }
  }

  lemma {:induction false} TrimEndIs(s: seq<Byte>, lo: nat, v: nat, hi: nat)
    requires lo <= v <= hi <= |s| && (forall k :: v <= k < hi ==> IsBlank(s[k])) && (v > lo ==> !IsBlank(s[v - 1]))
    ensures TrimEnd(s, lo, hi) == v
    decreases hi
  {
    if v < hi {
      TrimEndIs(s, lo, v, hi - 1);
    }
  }

  /** A value, its trailing blanks and its line end. */
  lemma ValueAt(s: seq<Byte>, at: nat, value: seq<Byte>, after: seq<Byte>, cr: bool,
                folded: bool, nameAt: nat, nameLen: nat)
    requires At(s, at, value) && At(s, at + |value|, after) && At(s, at + |value| + |after|, PrintEol(cr))
    requires All(value, Plain) && All(after, IsBlank) && NoTrailingBlank(value)
    ensures ParseValue(s, at, folded, nameAt, nameLen) ==
            Line(at + |value| + |after| + |PrintEol(cr)|, Header(folded, nameAt, nameLen, at, |value|))
  {
    var v, e := at + |value|, at + |value| + |after|;
    forall k | at <= k < v
      ensures !IsControl(s[k]) && s[k] == value[k - at]
    {
      AtByte(s, at, value, k - at);
      assert Plain(value[k - at]);
    }
    forall k | v <= k < e
      ensures IsBlank(s[k])
    {
      AtByte(s, v, after, k - v);
    }
    EolAt(s, e, cr);
    FindIs(s, at, IsControl, e);
    TrimEndIs(s, at, v, e);
  }

  lemma FoldAt(s: seq<Byte>, i: nat, f: Field)
    requires f.Fold? && ValidField(f) && At(s, i, PrintField(f))
    ensures i < |s| && s[i] != CR && s[i] != LF
    ensures ParseLine(s, i, true) == Line(i + |PrintField(f)|, Place(f, i))
  {
    hide ParseValue, PrintField, PrintEol;
    FoldParts(s, i, f);
    AtSplit(s, i, f.text, f.after);
    AtByte(s, i, f.text + f.after, 0);
    ValueAt(s, i, f.text, f.after, f.cr, true, 0, 0);
  }

  lemma NameFound(s: seq<Byte>, i: nat, name: seq<Byte>)
    requires At(s, i, name) && At(s, i + |name|, [COLON]) && name != [] && All(name, IsTokenChar)
    ensures Find(s, i, EndsName) == i + |name| < |s| && s[i + |name|] == COLON
    ensures !IsBlank(s[i]) && s[i] != CR && s[i] != LF
  {
    forall m | i <= m < i + |name|
      ensures !EndsName(s[m]) && IsTokenChar(s[m])
    {
      AtByte(s, i, name, m - i);
      assert IsTokenChar(name[m - i]);
    }
    AtByte(s, i + |name|, [COLON], 0);
    FindIs(s, i, EndsName, i + |name|);
  }

  lemma ValueFound(s: seq<Byte>, i: nat, before: seq<Byte>, k: nat)
    requires At(s, i, before) && All(before, IsBlank) && k == i + |before| < |s| && NotBlank(s[k])
    ensures Find(s, i, NotBlank) == k
  {
    forall m | i <= m < k
      ensures !NotBlank(s[m])
    {
      AtByte(s, i, before, m - i);
    }
    FindIs(s, i, NotBlank, k);
  }

  lemma NamedParts(s: seq<Byte>, i: nat, f: Field)
    requires f.Field?
    ensures var j := i + |f.name| + 1;
            At(s, i, PrintField(f)) <==>
            && At(s, i, f.name) && At(s, i + |f.name|, [COLON])
            && At(s, j, f.before) && At(s, j + |f.before|, f.value)
            && At(s, j + |f.before| + |f.value|, f.after)
            && At(s, j + |f.before| + |f.value| + |f.after|, PrintEol(f.cr))
    ensures |PrintField(f)| == |f.name| + 1 + |f.before| + |f.value| + |f.after| + |PrintEol(f.cr)|
  {
    hide At, PrintEol;
    var p1 := f.name + [COLON];
    var p2 := p1 + f.before;
    var p3 := p2 + f.value;
    AtSplit(s, i, p3 + f.after, PrintEol(f.cr));
    AtSplit(s, i, p3, f.after);
    AtSplit(s, i, p2, f.value);
    AtSplit(s, i, p1, f.before);
    AtSplit(s, i, f.name, [COLON]);
  }

  lemma FoldParts(s: seq<Byte>, i: nat, f: Field)
    requires f.Fold?
    ensures At(s, i, PrintField(f)) <==>
            && At(s, i, f.text) && At(s, i + |f.text|, f.after)
            && At(s, i + |f.text| + |f.after|, PrintEol(f.cr))
    ensures |PrintField(f)| == |f.text| + |f.after| + |PrintEol(f.cr)|
  {
    hide At, PrintEol;
    AtSplit(s, i, f.text + f.after, PrintEol(f.cr));
    AtSplit(s, i, f.text, f.after);
  }

  lemma AtSlice(s: seq<Byte>, i: nat, j: nat)
    requires i <= j <= |s|
    ensures At(s, i, s[i..j])
  {
  }

  lemma NamedAt(s: seq<Byte>, i: nat, f: Field, mayFold: bool)
    requires f.Field? && ValidField(f) && At(s, i, PrintField(f))
    ensures i < |s| && s[i] != CR && s[i] != LF
    ensures ParseLine(s, i, mayFold) == Line(i + |PrintField(f)|, Place(f, i))
  {
    hide ParseLine, ParseValue, Find, At, All, IsControl, IsTokenChar, PrintField, PrintEol;
    NamedParts(s, i, f);
    NameFound(s, i, f.name);
    var j := i + |f.name|;
    var k := j + 1 + |f.before|;
    if f.value != [] {
      AtByte(s, k, f.value, 0);
    } else {
      EolAt(s, k, f.cr);
    }
    ValueFound(s, j + 1, f.before, k);
    ParseNamedLine(s, i, mayFold, j, k);
    ValueAt(s, k, f.value, f.after, f.cr, false, i, |f.name|);
  }

  lemma LineAt(s: seq<Byte>, i: nat, f: Field, mayFold: bool)
    requires ValidField(f) && At(s, i, PrintField(f)) && (f.Fold? ==> mayFold)
    ensures i < |s| && s[i] != CR && s[i] != LF
    ensures ParseLine(s, i, mayFold) == Line(i + |PrintField(f)|, Place(f, i))
  {
    hide *;
    if f.Fold? {
      FoldAt(s, i, f);
    } else {
      NamedAt(s, i, f, mayFold);
    }
  }

  lemma ConsField(fs: seq<Field>, cr: bool, i: nat, done: seq<Header>)
    requires fs != []
    ensures PrintBlock(fs, cr) == PrintField(fs[0]) + PrintBlock(fs[1..], cr)
    ensures (done + [Place(fs[0], i)]) + Places(fs[1..], i + |PrintField(fs[0])|) == done + Places(fs, i)
  {
    hide PrintField, PrintEol, Place;
    Assoc(PrintField(fs[0]), PrintFields(fs[1..]), PrintEol(cr));
    Assoc(done, [Place(fs[0], i)], Places(fs[1..], i + |PrintField(fs[0])|));
  }

  lemma {:induction false} BlockAt(s: seq<Byte>, i: nat, fs: seq<Field>, cr: bool, maxHeaders: nat, done: seq<Header>)
    requires i <= |s| && At(s, i, PrintBlock(fs, cr)) && |done| + |fs| <= maxHeaders
    requires forall k :: 0 <= k < |fs| ==> ValidField(fs[k])
    requires fs != [] && fs[0].Fold? ==> done != []
    ensures ParseFrom(s, i, maxHeaders, done) == Accepted(i + |PrintBlock(fs, cr)|, done + Places(fs, i))
    decreases fs
  {
    hide ParseFrom, ParseLine, PrintField, PrintEol, Place, At, ValidField, EndOfLine;
    if fs == [] {
      assert PrintBlock(fs, cr) == PrintEol(cr);
      EolAt(s, i, cr);
      ParseFromStep(s, i, maxHeaders, done);
      assert done + [] == done;
    } else {
      var f, rest := fs[0], fs[1..];
      ConsField(fs, cr, i, done);
      AtSplit(s, i, PrintField(f), PrintBlock(rest, cr));
      LineAt(s, i, f, done != []);
      ParseFromStep(s, i, maxHeaders, done);
      var next := i + |PrintField(f)|;
      BlockAt(s, next, rest, cr, maxHeaders, done + [Place(f, i)]);
    }
  }

  ghost predicate ValidFields(fs: seq<Field>, maxHeaders: nat) {
    && |fs| <= maxHeaders && (forall k :: 0 <= k < |fs| ==> ValidField(fs[k]))
    && (fs != [] ==> fs[0].Field?)
  }

  /** Parsing a printed block consumes it exactly and finds every name and value in its place. */
  lemma PrintParseRoundTrip(fs: seq<Field>, cr: bool, maxHeaders: nat, tail: seq<Byte>)
    requires ValidFields(fs, maxHeaders)
    ensures ParseBlock(PrintBlock(fs, cr) + tail, maxHeaders) ==
            Accepted(|PrintBlock(fs, cr)|, Places(fs, 0))
  {
    var s := PrintBlock(fs, cr) + tail;
    assert s[0..0 + |PrintBlock(fs, cr)|] == PrintBlock(fs, cr);
    BlockAt(s, 0, fs, cr, maxHeaders, []);
    assert [] + Places(fs, 0) == Places(fs, 0);
  }

  // ----- Nothing else is accepted -----

  lemma EolPrinted(s: seq<Byte>, e: nat) returns (cr: bool)
    requires e <= |s| && EndOfLine(s, e).Eol?
    ensures At(s, e, PrintEol(cr)) && EndOfLine(s, e).next == e + |PrintEol(cr)|
  {
    cr := s[e] == CR;
    assert s[e..e + |PrintEol(cr)|] == PrintEol(cr);
  }

  /** The value part of an accepted line. */
  lemma ValuePrinted(s: seq<Byte>, at: nat, folded: bool, nameAt: nat, nameLen: nat)
    returns (v: nat, e: nat, cr: bool)
    requires at <= |s| && ParseValue(s, at, folded, nameAt, nameLen).Line?
    ensures at <= v <= e <= |s| && All(s[at..v], Plain) && All(s[v..e], IsBlank) && NoTrailingBlank(s[at..v])
    ensures At(s, e, PrintEol(cr)) && e < |s| && !IsBlank(s[e])
    ensures ParseValue(s, at, folded, nameAt, nameLen) ==
            Line(e + |PrintEol(cr)|, Header(folded, nameAt, nameLen, at, v - at))
  {
    e := Find(s, at, IsControl);
    cr := EolPrinted(s, e);
    v := TrimEnd(s, at, e);
  }

  lemma FoldPrinted(s: seq<Byte>, i: nat) returns (f: Field)
    requires i < |s| && IsBlank(s[i]) && ParseLine(s, i, true).Line?
    ensures f.Fold? && ValidField(f) && At(s, i, PrintField(f))
    ensures ParseLine(s, i, true) == Line(i + |PrintField(f)|, Place(f, i))
  {
    hide ParseValue, At, PrintField, PrintEol;
    var v, e, cr := ValuePrinted(s, i, true, 0, 0);
    f := Fold(s[i..v], s[v..e], cr);
    assert (f.text + f.after)[0] == s[i];
    AtSlice(s, i, v);
    AtSlice(s, v, e);
    FoldParts(s, i, f);
  }

  lemma NamedPrinted(s: seq<Byte>, i: nat, mayFold: bool) returns (f: Field)
    requires i < |s| && !(mayFold && IsBlank(s[i])) && ParseLine(s, i, mayFold).Line?
    ensures f.Field? && ValidField(f) && At(s, i, PrintField(f))
    ensures ParseLine(s, i, mayFold) == Line(i + |PrintField(f)|, Place(f, i))
  {
    hide ParseValue, At, PrintField, PrintEol, IsTokenChar, IsControl;
    var j := Find(s, i, EndsName);
    var k := Find(s, j + 1, NotBlank);
    var v, e, cr := ValuePrinted(s, k, false, i, j - i);
    f := Field(s[i..j], s[j + 1..k], s[k..v], s[v..e], cr);
    NameIsToken(s, i, j);
    BlanksThenValue(s, j + 1, k, v, e);
    AtSlice(s, i, j);
    AtSlice(s, j, j + 1);
    assert s[j..j + 1] == [COLON];
    AtSlice(s, j + 1, k);
    AtSlice(s, k, v);
    AtSlice(s, v, e);
    NamedParts(s, i, f);
  }

  lemma BlanksThenValue(s: seq<Byte>, i: nat, k: nat, v: nat, e: nat)
    requires i <= k <= v <= e <= |s| && k < |s| && !IsBlank(s[k])
    requires (forall m :: i <= m < k ==> !NotBlank(s[m])) && All(s[v..e], IsBlank)
    ensures All(s[i..k], IsBlank) && (v > k ==> s[k..v][0] == s[k]) && (v == k ==> e == k)
  {
    assert e > v ==> s[v..e][0] == s[v];
  }

  lemma NameIsToken(s: seq<Byte>, i: nat, j: nat)
    requires i <= j <= |s| && forall k :: i <= k < j ==> !EndsName(s[k])
    ensures All(s[i..j], IsTokenChar)
  {
  }

  lemma LinePrinted(s: seq<Byte>, i: nat, mayFold: bool) returns (f: Field)
    requires i < |s| && ParseLine(s, i, mayFold).Line?
    ensures ValidField(f) && At(s, i, PrintField(f)) && (f.Fold? ==> mayFold)
    ensures ParseLine(s, i, mayFold) == Line(i + |PrintField(f)|, Place(f, i))
  {
    hide ParseLine, ValidField, PrintField, Place, At;
    if mayFold && IsBlank(s[i]) {
      f := FoldPrinted(s, i);
    } else {
      f := NamedPrinted(s, i, mayFold);
    }
  }

  lemma {:induction false} BlockPrinted(s: seq<Byte>, i: nat, maxHeaders: nat, done: seq<Header>)
    returns (fs: seq<Field>, cr: bool)
    requires i <= |s| && |done| <= maxHeaders && ParseFrom(s, i, maxHeaders, done).Accepted?
    ensures forall k :: 0 <= k < |fs| ==> ValidField(fs[k])
    ensures |done| + |fs| <= maxHeaders && (fs != [] && fs[0].Fold? ==> done != [])
    ensures At(s, i, PrintBlock(fs, cr))
    ensures ParseFrom(s, i, maxHeaders, done) == Accepted(i + |PrintBlock(fs, cr)|, done + Places(fs, i))
    decreases |s| - i
  {
    hide ParseLine, ValidField, PrintField, PrintEol, Place, At;
    if s[i] == CR || s[i] == LF {
      cr := EolPrinted(s, i);
      fs := [];
      assert PrintBlock(fs, cr) == PrintEol(cr);
      assert done + [] == done;
    } else {
      var f := LinePrinted(s, i, done != []);
      var next, rest := i + |PrintField(f)|, [];
      rest, cr := BlockPrinted(s, next, maxHeaders, done + [Place(f, i)]);
      fs := [f] + rest;
      assert fs[1..] == rest;
      ConsField(fs, cr, i, done);
      AtSplit(s, i, PrintField(f), PrintBlock(rest, cr));
    }
  }

  /** The parser accepts exactly the inputs that start with a block of the grammar, and its slices
      are the places of that block's names and values. */
  lemma AcceptsExactlyTheGrammar(s: seq<Byte>, maxHeaders: nat)
    ensures ParseBlock(s, maxHeaders).Accepted? <==>
            exists fs, cr :: ValidFields(fs, maxHeaders) && PrintBlock(fs, cr) <= s
    ensures forall fs, cr :: ValidFields(fs, maxHeaders) && PrintBlock(fs, cr) <= s ==>
              && ParseBlock(s, maxHeaders) == Accepted(|PrintBlock(fs, cr)|, Places(fs, 0))
              && ParseBlock(s, maxHeaders).Code() == |PrintBlock(fs, cr)|
  {
    hide ParseFrom, ValidField, PrintBlock, Places;
    forall fs, cr | ValidFields(fs, maxHeaders) && PrintBlock(fs, cr) <= s
      ensures ParseBlock(s, maxHeaders) == Accepted(|PrintBlock(fs, cr)|, Places(fs, 0))
    {
      assert s == PrintBlock(fs, cr) + s[|PrintBlock(fs, cr)|..];
      PrintParseRoundTrip(fs, cr, maxHeaders, s[|PrintBlock(fs, cr)|..]);
    }
    if ParseBlock(s, maxHeaders).Accepted? {
      var fs, cr := BlockPrinted(s, 0, maxHeaders, []);
      assert ValidFields(fs, maxHeaders) && PrintBlock(fs, cr) <= s;
    }
  }

  // ----- The slices -----

  /** In order, disjoint, inside the consumed region, and equal to the printed names and values. */
  lemma {:induction false} SlicesInOrder(fs: seq<Field>, cr: bool, i: nat, s: seq<Byte>, k: nat)
    requires At(s, i, PrintBlock(fs, cr)) && k < |fs|
    ensures |Places(fs, i)| == |fs|
    ensures var h := Places(fs, i)[k];
            && Holds(fs[k], h, s) && i <= Start(h) && h.valueAt + h.valueLen < i + |PrintBlock(fs, cr)| <= |s|
            && (k + 1 < |fs| ==> h.valueAt + h.valueLen < Start(Places(fs, i)[k + 1]))
    decreases fs
  {
    hide PrintField, PrintEol, Holds;
    var f, rest := fs[0], fs[1..];
    var next := i + |PrintField(f)|;
    ConsField(fs, cr, i, []);
    AtSplit(s, i, PrintField(f), PrintBlock(rest, cr));
    PlaceHolds(f, i, s);
    assert Places(fs, i) == [Place(f, i)] + Places(rest, next);
    if rest != [] {
      SlicesInOrder(rest, cr, next, s, if k > 0 then k - 1 else 0);
    }
  }

  function Start(h: Header): nat {
    if h.folded then h.valueAt else h.nameAt
  }

  ghost function NameIn(h: Header, s: seq<Byte>): seq<Byte>
    requires h.nameAt + h.nameLen <= |s|
  {
    s[h.nameAt..h.nameAt + h.nameLen]
  }

  ghost function ValueIn(h: Header, s: seq<Byte>): seq<Byte>
    requires h.valueAt + h.valueLen <= |s|
  {
    s[h.valueAt..h.valueAt + h.valueLen]
  }

  /** The slices of `h` lie in `s`, the name before the value; the name is a token, and the value is free
      of control characters and has no trailing blank and, behind a name, no leading one. */
  ghost predicate WellFormed(h: Header, s: seq<Byte>) {
    && h.valueAt + h.valueLen <= |s| && All(ValueIn(h, s), Plain) && NoTrailingBlank(ValueIn(h, s))
    && (!h.folded ==>
          && h.nameAt + h.nameLen < h.valueAt && h.nameLen > 0 && All(NameIn(h, s), IsTokenChar)
          && (h.valueLen > 0 ==> !IsBlank(s[h.valueAt])))
  }

  lemma HeldIsWellFormed(f: Field, h: Header, s: seq<Byte>)
    requires ValidField(f) && Holds(f, h, s)
    ensures WellFormed(h, s) && h.folded == f.Fold?
  {
    hide IsTokenChar, IsControl;
    if f.Field? {
      assert NameIn(h, s) == f.name && ValueIn(h, s) == f.value;
      if f.value != [] {
        AtByte(s, h.valueAt, f.value, 0);
      }
    } else {
      assert ValueIn(h, s) == f.text;
    }
  }

  /** The slices of every accepted input: well formed, inside the consumed region, each header behind
      the one before it, and the first one not a continuation. */
  lemma AcceptedSlices(s: seq<Byte>, maxHeaders: nat, k: nat)
    requires ParseBlock(s, maxHeaders).Accepted? && k < |ParseBlock(s, maxHeaders).headers|
    ensures var r := ParseBlock(s, maxHeaders);
            var h := r.headers[k];
            && |r.headers| <= maxHeaders && WellFormed(h, s) && (k == 0 ==> !h.folded)
            && h.valueAt + h.valueLen < r.end <= |s|
            && (k + 1 < |r.headers| ==> h.valueAt + h.valueLen < Start(r.headers[k + 1]))
  {
    hide ParseFrom, ValidField, PrintBlock, WellFormed, Places, Holds, At;
    var fs, cr := BlockPrinted(s, 0, maxHeaders, []);
    assert [] + Places(fs, 0) == Places(fs, 0);
    PlacesLength(fs, 0);
    SlicesInOrder(fs, cr, 0, s, k);
    HeldIsWellFormed(fs[k], Places(fs, 0)[k], s);
  }

  lemma {:induction false} PlacesLength(fs: seq<Field>, i: nat)
    ensures |Places(fs, i)| == |fs|
    decreases fs
  {
    if fs != [] {
      PlacesLength(fs[1..], i + |PrintField(fs[0])|);
    }
  }

  /** The slices of `h` hold the name and the value of `f`, the name first. */
  ghost predicate Holds(f: Field, h: Header, s: seq<Byte>) {
    && h.folded == f.Fold? && At(s, h.valueAt, if f.Fold? then f.text else f.value)
    && h.valueLen == |if f.Fold? then f.text else f.value|
    && (f.Field? ==> At(s, h.nameAt, f.name) && h.nameLen == |f.name| && h.nameAt + h.nameLen < h.valueAt)
  }

  lemma PlaceHolds(f: Field, i: nat, s: seq<Byte>)
    requires At(s, i, PrintField(f))
    ensures Holds(f, Place(f, i), s)
    ensures i <= Start(Place(f, i)) && Place(f, i).valueAt + Place(f, i).valueLen < i + |PrintField(f)|
  {
    hide PrintField;
    if f.Field? {
      NamedParts(s, i, f);
    } else {
      FoldParts(s, i, f);
    }
  }
}
