/** Rows on the wire as the server prints and reads them (the text format in the
    reference page of COPY in the PostgreSQL documentation), against stream_from.cxx
    and stream_to.cxx. */
module ServerRows {
  import opened Common
  import opened CopyText
  import EncodedText
  import opened Encodings
  import Utf8

  // ---------------------------------------------------------------------
  // What the server prints
  // ---------------------------------------------------------------------

  /** The letters the server escapes characters with: backspace, tab, newline, vertical
      tab, form feed, carriage return and the backslash. */
  function PrintedAs(c: Byte): Option<Byte> {
    match c
    case 8 => Some('b' as int)
    case 9 => Some('t' as int)
    case 10 => Some('n' as int)
    case 11 => Some('v' as int)
    case 12 => Some('f' as int)
    case 13 => Some('r' as int)
    case 92 => Some('\\' as int)
    case _ => None
  }

  /** Any other glyph is sent raw, whatever bytes it is made of. */
  function PrintGlyph(g: seq<Byte>): seq<Byte> {
    if |g| == 1 && PrintedAs(g[0]).Some? then ['\\' as int, PrintedAs(g[0]).value] else g
  }

  function PrintGlyphs(gs: seq<seq<Byte>>): seq<Byte> {
    if gs == [] then [] else PrintGlyph(gs[0]) + PrintGlyphs(gs[1..])
  }

  const NULL_MARK: seq<Byte> := ['\\' as int, 'N' as int]

  /** A null or the glyphs of a text. */
  type Cell = Option<seq<seq<Byte>>>

  function PrintCell(v: Cell): seq<Byte> {
    match v
    case None => NULL_MARK
    case Some(gs) => PrintGlyphs(gs)
  }

  function PrintRow(row: seq<Cell>): seq<Byte>
    requires row != []
  {
    if |row| == 1 then PrintCell(row[0]) else PrintCell(row[0]) + ['\t' as int] + PrintRow(row[1..])
  }

  function Meant(v: Cell): Field {
    match v
    case None => NullField
    case Some(gs) => Value(Concat(gs))
  }

  function MeantAll(row: seq<Cell>): seq<Field> {
    seq(|row|, i requires 0 <= i < |row| => Meant(row[i]))
  }

  /** Every text in the row is made of the encoding's glyphs. */
  predicate Sendable(enc: Encoding, row: seq<Cell>) {
    forall k :: 0 <= k < |row| && row[k].Some? ==> AllGlyphs(enc, row[k].value)
  }

  // ---------------------------------------------------------------------
  // What stream_from makes of it
  // ---------------------------------------------------------------------

  lemma RawToken(enc: Encoding, line: seq<Byte>, at: nat, g: seq<Byte>)
    requires Glyph(enc, g) && at + |g| <= |line| && line[at..at + |g|] == g && PrintGlyph(g) == g
    ensures TokenAt(enc, line, at) == Some((Text(g), at + |g|))
  {
    hide Glyph, Scan;
    GlyphIsNotEmpty(enc, g);
    ScanIsExact(enc, line, at, at + |g|);
    if |g| == 1 {
      assert line[at] == g[0] && g == [g[0]];
    }
  }

  lemma GlyphToken(enc: Encoding, before: seq<Byte>, g: seq<Byte>, after: seq<Byte>)
    requires Glyph(enc, g)
    ensures TokenAt(enc, before + PrintGlyph(g) + after, |before|) ==
            Some((Text(g), |before| + |PrintGlyph(g)|))
  {
    hide Glyph, Scan, TokenAt;
    GlyphIsNotEmpty(enc, g);
    var at := |before|;
    var line := before + PrintGlyph(g) + after;
    assert line[at..at + |PrintGlyph(g)|] == PrintGlyph(g);
    if |g| == 1 && PrintedAs(g[0]).Some? {
      assert line[at] == BACKSLASH && line[at + 1] == PrintedAs(g[0]).value;
      AsciiToken(enc, line, at);
      assert g == [g[0]];
    } else {
      RawToken(enc, line, at, g);
    }
  }

  function Texts(gs: seq<seq<Byte>>): seq<Token> {
    seq(|gs|, i requires 0 <= i < |gs| => Text(gs[i]))
  }

  lemma {:induction false} GlyphsAreTexts(enc: Encoding, before: seq<Byte>, gs: seq<seq<Byte>>, after: seq<Byte>,
                                          fields: seq<Field>, part: seq<Token>)
    requires AllGlyphs(enc, gs)
    ensures var line := before + PrintGlyphs(gs) + after;
            Continue(enc, line, |before|, fields, part) ==
            Continue(enc, line, |before| + |PrintGlyphs(gs)|, fields, part + Texts(gs))
    decreases |gs|
  {
    hide Glyph, Continue, TokenAt, PrintGlyph;
    if gs == [] {
      assert part + Texts(gs) == part;
    } else {
      var first, rest := PrintGlyph(gs[0]), PrintGlyphs(gs[1..]);
      var line := before + PrintGlyphs(gs) + after;
      assert line == before + first + (rest + after);
      assert line == (before + first) + rest + after;
      GlyphToken(enc, before, gs[0], rest + after);
      ContinueStep(enc, line, |before|, fields, part);
      GlyphsAreTexts(enc, before + first, gs[1..], after, fields, part + [Text(gs[0])]);
      assert part + Texts(gs) == part + [Text(gs[0])] + Texts(gs[1..]);
    }
  }

  lemma {:induction false} ConcatMore(gs: seq<seq<Byte>>, g: seq<Byte>)
    ensures Concat(gs + [g]) == Concat(gs) + g
  {
    if gs == [] {
      assert gs + [g] == [g] && [g][1..] == [];
    } else {
      assert (gs + [g])[1..] == gs[1..] + [g];
      ConcatMore(gs[1..], g);
    }
  }

  lemma {:induction false} JoinedGlyphs(gs: seq<seq<Byte>>)
    ensures Joined(Texts(gs)) == Concat(gs)
    decreases |gs|
  {
    if gs != [] {
      var init, last := gs[..|gs| - 1], gs[|gs| - 1];
      JoinedGlyphs(init);
      ConcatMore(init, last);
      assert gs == init + [last];
      assert Texts(gs)[..|gs| - 1] == Texts(init);
    }
  }

  lemma CellIsRead(enc: Encoding, before: seq<Byte>, v: Cell, after: seq<Byte>, fields: seq<Field>)
      returns (part: seq<Token>)
    requires v.Some? ==> AllGlyphs(enc, v.value)
    ensures var line := before + PrintCell(v) + after;
            Continue(enc, line, |before|, fields, []) ==
            Continue(enc, line, |before| + |PrintCell(v)|, fields, part)
    ensures FieldOf(part) == Some(Meant(v)) && (part == [] <==> v == Some([]))
  {
    hide Continue, Glyph, TokenAt;
    if v == None {
      var line := before + PrintCell(v) + after;
      part := [NullMark];
      assert line[|before|] == BACKSLASH && line[|before| + 1] == LETTER_N;
      AsciiToken(enc, line, |before|);
      ContinueStep(enc, line, |before|, fields, []);
      assert [] + [NullMark] == part;
    } else {
      GlyphsAreTexts(enc, before, v.value, after, fields, []);
      JoinedGlyphs(v.value);
      part := Texts(v.value);
      assert [] + Texts(v.value) == part;
    }
  }

  /** Up to the end of the row, whatever follows in the line. */
  lemma {:induction false} RowIsRead(enc: Encoding, before: seq<Byte>, row: seq<Cell>, after: seq<Byte>,
                                     fields: seq<Field>)
      returns (part: seq<Token>)
    requires row != [] && Sendable(enc, row)
    ensures var line := before + PrintRow(row) + after;
            Continue(enc, line, |before|, fields, []) ==
            Continue(enc, line, |before| + |PrintRow(row)|, fields + MeantAll(row[..|row| - 1]), part)
    ensures FieldOf(part) == Some(Meant(row[|row| - 1])) && (part == [] <==> row[|row| - 1] == Some([]))
    decreases |row|
  {
    hide Continue, AllGlyphs, FieldOf, Meant, PrintCell, TokenAt;
    var line := before + PrintRow(row) + after;
    if |row| == 1 {
      part := CellIsRead(enc, before, row[0], after, fields);
      assert fields + MeantAll(row[..0]) == fields;
    } else {
      var first, rest := PrintCell(row[0]), PrintRow(row[1..]);
      part := CellIsRead(enc, before, row[0], [TAB] + rest + after, fields);
      assert before + first + ([TAB] + rest + after) == line;
      var end := |before| + |first|;
      assert line[end] == TAB;
      AsciiToken(enc, line, end);
      ContinueStep(enc, line, end, fields, part);
      var next := before + first + [TAB];
      assert line == next + rest + after;
      part := RowIsRead(enc, next, row[1..], after, fields + [Meant(row[0])]);
      assert row[1..][..|row| - 2] == row[1..|row| - 1];
      assert fields + MeantAll(row[..|row| - 1]) == fields + [Meant(row[0])] + MeantAll(row[1..|row| - 1]);
    }
  }

  /** In every encoding, every row the server sends is read as exactly its fields:
      glyphs of several bytes whole, escapes undone, nulls as nulls. */
  lemma SentRowIsRead(enc: Encoding, row: seq<Cell>)
    requires row != [] && Sendable(enc, row)
    ensures FieldsOf(enc, PrintRow(row)) == Some(MeantAll(row))
  {
    hide Continue, Sendable, PrintRow, Meant, FieldOf;
    var line := PrintRow(row);
    var part := RowIsRead(enc, [], row, [], []);
    assert [] + line + [] == line;
    ContinueEnd(enc, line, |line|, [] + MeantAll(row[..|row| - 1]), part);
    assert [] + MeantAll(row[..|row| - 1]) + [Meant(row[|row| - 1])] == MeantAll(row);
  }

  /** A line is refused if after a good beginning it stops at a backslash, goes on with
      bytes that are no glyph, or has a null mark behind a text or another null. */
  lemma BadLineIsRefused(enc: Encoding, row: seq<Cell>, after: seq<Byte>)
    requires row != [] && Sendable(enc, row)
    requires
      || after == [BACKSLASH]
      || (after != [] && forall n :: 0 < n <= |after| ==> !Glyph(enc, after[..n]))
      || (NULL_MARK <= after && row[|row| - 1] != Some([]))
    ensures FieldsOf(enc, PrintRow(row) + after) == None
  {
    hide Continue, Sendable, PrintRow, Meant, FieldOf, Glyph, TokenAt;
    var line, end := PrintRow(row) + after, |PrintRow(row)|;
    var done := [] + MeantAll(row[..|row| - 1]);
    var part := RowIsRead(enc, [], row, after, []);
    assert [] + PrintRow(row) + after == line;
    ContinueStep(enc, line, end, done, part);
    if after == [BACKSLASH] {
      AsciiToken(enc, line, end);
    } else if forall n :: 0 < n <= |after| ==> !Glyph(enc, after[..n]) {
      NoToken(enc, line, end, after);
    } else {
      assert line[end] == after[0] == BACKSLASH && line[end + 1] == after[1] == LETTER_N;
      AsciiToken(enc, line, end);
      SecondNull(part);
      BadPart(enc, line, end + 2, done, part + [NullMark]);
    }
  }

  lemma NoToken(enc: Encoding, line: seq<Byte>, at: nat, after: seq<Byte>)
    requires at <= |line| && line[at..] == after && after != []
    requires forall n :: 0 < n <= |after| ==> !Glyph(enc, after[..n])
    ensures TokenAt(enc, line, at) == None
  {
    hide Glyph, Scan;
    forall end | at < end <= |line|
      ensures !Glyph(enc, line[at..end])
    {
      assert line[at..end] == after[..end - at];
    }
    RefusedIffNoGlyph(enc, line, at);
  }

  lemma SecondNull(part: seq<Token>)
    requires part != []
    ensures var longer := part + [NullMark];
            longer[0] != NullMark || NullMark in longer[1..]
  {
    assert (part + [NullMark])[1..] == part[1..] + [NullMark];
  }

  /** Reading such a line in place shows exactly its fields. */
  method ReadSentRow(enc: Encoding, row: seq<Cell>) returns (ok: bool, s: StreamFrom)
    requires row != [] && Sendable(enc, row)
    ensures ok <==> |PrintRow(row)| < MAX_LINE
    ensures ok ==> ShowsAll(s.row[..], s.fields, MeantAll(row))
  {
    hide FieldsOf, PrintRow, MeantAll, ShowsAll, Sendable;
    s := new StreamFrom(enc);
    ok := s.ParseLine(Some(PrintRow(row)));
    SentRowIsRead(enc, row);
  }

  // ---------------------------------------------------------------------
  // Which rows those are
  // ---------------------------------------------------------------------

  function FieldFor(text: Option<seq<Byte>>): Field {
    if text == None then NullField else Value(text.value)
  }

  /** Every row of texts that the encoding's scanner accepts is one the server can send. */
  lemma {:induction false} AcceptedRowIsSent(enc: Encoding, texts: seq<Option<seq<Byte>>>) returns (row: seq<Cell>)
    requires forall k :: 0 <= k < |texts| && texts[k].Some? ==> Accepts(enc, texts[k].value, 0)
    ensures |row| == |texts| && Sendable(enc, row)
    ensures forall k :: 0 <= k < |row| ==> Meant(row[k]) == FieldFor(texts[k])
  {
    hide Accepts, Glyph, AllGlyphs, Concat;
    row := [];
    if texts != [] {
      var cell: Cell := None;
      if texts[0].Some? {
        var text := texts[0].value;
        var gs := AcceptedIsGlyphs(enc, text, 0);
        assert text[0..] == text;
        cell := Some(gs);
      }
      var rest := AcceptedRowIsSent(enc, texts[1..]);
      row := [cell] + rest;
    }
  }

  /** In particular rows of Unicode text come through. */
  lemma UnicodeRowIsRead(texts: seq<seq<Utf8.CodePoint>>)
    requires texts != [] && forall k :: 0 <= k < |texts| ==> EncodedText.Text(texts[k])
    ensures
      var row: seq<Cell> :=
        seq(|texts|, k requires 0 <= k < |texts| => Some(EncodedText.Characters(texts[k])));
      FieldsOf(UTF8, PrintRow(row)) ==
      Some(seq(|texts|, k requires 0 <= k < |texts| => Value(EncodedText.Encoded(texts[k]))))
  {
    hide FieldsOf, PrintRow, Concat, AllGlyphs, EncodedText.Text, EncodedText.Encoded, EncodedText.Characters;
    var row: seq<Cell> :=
      seq(|texts|, k requires 0 <= k < |texts| => Some(EncodedText.Characters(texts[k])));
    forall k | 0 <= k < |texts|
      ensures AllGlyphs(UTF8, row[k].value) && Meant(row[k]) == Value(EncodedText.Encoded(texts[k]))
    {
      EncodedText.CharactersMakeText(texts[k]);
    }
    SentRowIsRead(UTF8, row);
    assert MeantAll(row) == seq(|texts|, k requires 0 <= k < |texts| => Value(EncodedText.Encoded(texts[k])));
  }

  // ---------------------------------------------------------------------
  // What the server makes of stream_to's lines
  // ---------------------------------------------------------------------

  predicate Octal(b: Byte) {
    48 <= b <= 55
  }

  /** An octal escape has one to three digits; what does not fit a byte is cut off. */
  function OctalLength(s: seq<Byte>): (n: nat)
    ensures n <= |s|
  {
    if |s| >= 1 && Octal(s[0]) then
      if |s| >= 2 && Octal(s[1]) then
        if |s| >= 3 && Octal(s[2]) then 3 else 2
      else 1
    else 0
  }

  function OctalValue(digits: seq<Byte>): int {
    if digits == [] then 0
    else
      var last: int := digits[|digits| - 1];
      OctalValue(digits[..|digits| - 1]) * 8 + last - 48
  }

  /** A field of a line, its escapes undone. Hexadecimal escapes, which stream_to never
      writes, are left out. */
  function ServerText(s: seq<Byte>): seq<Byte> {
    if s == [] || s == [BACKSLASH] then []
    else if s[0] != BACKSLASH then [s[0]] + ServerText(s[1..])
    else
      var n := OctalLength(s[1..]);
      if n == 0 then [Unescape(s[1])] + ServerText(s[2..])
      else [OctalValue(s[1..n + 1]) % 256] + ServerText(s[n + 1..])
  }

  /** The fields of a line, given the part of a field before; a field that reads as the
      null mark is null. */
  function ServerFields(part: seq<Byte>, line: seq<Byte>): seq<Field>
    decreases |line|
  {
    var field := if part == NULL_MARK then NullField else Value(ServerText(part));
    if line == [] then [field]
    else if line[0] == TAB then [field] + ServerFields([], line[1..])
    else ServerFields(part + [line[0]], line[1..])
  }

  lemma NextDigit(digits: seq<Byte>, d: Byte)
    ensures OctalValue(digits + [d]) == OctalValue(digits) * 8 + (d as int - 48)
  {
    assert (digits + [d])[..|digits|] == digits;
  }

  lemma ThreeDigitValue(d2: Byte, d1: Byte, d0: Byte)
    ensures OctalValue([d2, d1, d0]) == (d2 as int - 48) * 64 + (d1 as int - 48) * 8 + (d0 as int - 48)
  {
    assert OctalValue([]) == 0;
    hide OctalValue;
    NextDigit([], d2);
    NextDigit([d2], d1);
    NextDigit([d2, d1], d0);
    assert [] + [d2] == [d2] && [d2] + [d1] == [d2, d1] && [d2, d1] + [d0] == [d2, d1, d0];
  }

  lemma DigitsDenoteByte(c: Byte)
    ensures OctalValue([OctalDigit(c, 2), OctalDigit(c, 1), OctalDigit(c, 0)]) == c
  {
    hide OctalValue;
    ThreeDigitValue(OctalDigit(c, 2), OctalDigit(c, 1), OctalDigit(c, 0));
  }

  lemma OctalIsRead(d2: Byte, d1: Byte, d0: Byte, rest: seq<Byte>)
    requires Octal(d2) && Octal(d1) && Octal(d0)
    ensures ServerText([BACKSLASH, d2, d1, d0] + rest) == [OctalValue([d2, d1, d0]) % 256] + ServerText(rest)
  {
    hide OctalValue;
    var s := [BACKSLASH, d2, d1, d0] + rest;
    assert s[1..4] == [d2, d1, d0] && s[4..] == rest;
    assert OctalLength(s[1..]) == 3;
  }

  lemma LetterIsRead(letter: Byte, rest: seq<Byte>)
    requires !Octal(letter)
    ensures ServerText([BACKSLASH, letter] + rest) == [Unescape(letter)] + ServerText(rest)
  {
    var s := [BACKSLASH, letter] + rest;
    assert s[2..] == rest;
    assert OctalLength(s[1..]) == 0;
  }

  lemma PlainIsRead(c: Byte, rest: seq<Byte>)
    requires c != BACKSLASH
    ensures ServerText([c] + rest) == [c] + ServerText(rest)
  {
    assert ([c] + rest)[0] == c && ([c] + rest)[1..] == rest;
  }

  lemma EscapeIsRead(c: Byte, rest: seq<Byte>)
    ensures ServerText(Escape(c) + rest) == [c] + ServerText(rest)
  {
    hide OctalDigit, OctalValue, ServerText;
    if EscapeLetter(c) != 0 {
      LetterIsRead(EscapeLetter(c), rest);
    } else if Printable(c) {
      PlainIsRead(c, rest);
    } else {
      OctalDigits(c);
      DigitsDenoteByte(c);
      OctalIsRead(OctalDigit(c, 2), OctalDigit(c, 1), OctalDigit(c, 0), rest);
    }
  }

  lemma {:induction false} EscapedIsRead(text: seq<Byte>)
    ensures ServerText(Escaped(text)) == text
    ensures Escaped(text) != NULL_MARK
  {
    if text != [] {
      EscapeIsRead(text[0], Escaped(text[1..]));
      EscapedIsRead(text[1..]);
    }
  }

  lemma {:induction false} FieldIsTaken(part: seq<Byte>, field: seq<Byte>, rest: seq<Byte>)
    requires TAB !in field
    ensures ServerFields(part, field + rest) == ServerFields(part + field, rest)
    decreases |field|
  {
    hide ServerText;
    if field == [] {
      assert field + rest == rest && part + field == part;
    } else {
      assert (field + rest)[1..] == field[1..] + rest;
      FieldIsTaken(part + [field[0]], field[1..], rest);
      assert part + [field[0]] + field[1..] == part + field;
    }
  }

  /** The server stores exactly the bytes of every row that stream_to writes, control
      characters, backslashes and bytes above ASCII included. */
  lemma {:induction false} WrittenRowArrives(fields: seq<seq<Byte>>)
    requires fields != []
    ensures ServerFields([], Line(fields)) == Values(fields)
    decreases |fields|
  {
    hide Escaped, ServerText, Line;
    LineCons(fields);
    EscapedIsRead(fields[0]);
    var first := Escaped(fields[0]);
    assert [] + first == first;
    if |fields| == 1 {
      FieldIsTaken([], first, []);
      assert first + [] == first;
    } else {
      var rest := [TAB] + Line(fields[1..]);
      FieldIsTaken([], first, rest);
      assert rest[1..] == Line(fields[1..]);
      WrittenRowArrives(fields[1..]);
      assert Values(fields) == [Value(fields[0])] + Values(fields[1..]);
    }
  }
}
