/** The text format of COPY: stream_to's escaping and stream_from's in-place
    unescaping of a line into fields. */
module CopyText {
  import opened Common
  import opened Encodings

  const BACKSPACE: Byte := 8
  const TAB: Byte := 9
  const NEWLINE: Byte := 10
  const VERTICAL_TAB: Byte := 11
  const FORM_FEED: Byte := 12
  const RETURN: Byte := 13
  const BACKSLASH: Byte := 92
  const LETTER_N: Byte := 78

  datatype Field = NullField | Value(text: seq<Byte>)

  // ---------------------------------------------------------------------
  // What a line means: tokens, split at separators
  // ---------------------------------------------------------------------

  datatype Token = Separator | NullMark | Text(bytes: seq<Byte>)

  /** What the letter after a backslash stands for; most stand for themselves. */
  function Unescape(c: Byte): Byte {
    if c == 98 then BACKSPACE
    else if c == 102 then FORM_FEED
    else if c == 110 then NEWLINE
    else if c == 114 then RETURN
    else if c == 116 then TAB
    else if c == 118 then VERTICAL_TAB
    else c
  }

  /** The token at a position and where the next one starts; None if malformed. A
      backslash or tab inside a longer glyph is part of that glyph. */
  function TokenAt(enc: Encoding, line: seq<Byte>, at: nat): (r: Option<(Token, nat)>)
    requires at < |line|
    ensures r.Some? ==> at < r.value.1 <= |line|
  {
    var step := Scan(enc, line, at);
    if !step.Next? then None
    else if step.pos != at + 1 then Some((Text(line[at..step.pos]), step.pos))
    else if line[at] == TAB then Some((Separator, at + 1))
    else if line[at] != BACKSLASH then Some((Text([line[at]]), at + 1))
    else if at + 1 >= |line| then None
    else if line[at + 1] == LETTER_N then Some((NullMark, at + 2))
    else Some((Text([Unescape(line[at + 1])]), at + 2))
  }

  function Tokens(enc: Encoding, line: seq<Byte>, at: nat): Option<seq<Token>>
    decreases |line| - at
  {
    if at >= |line| then Some([])
    else
      match TokenAt(enc, line, at)
      case None => None
      case Some((token, next)) =>
        match Tokens(enc, line, next)
        case None => None
        case Some(rest) => Some([token] + rest)
  }

  function Joined(tokens: seq<Token>): seq<Byte> {
    if tokens == [] then []
    else
      var last := tokens[|tokens| - 1];
      Joined(tokens[..|tokens| - 1]) + (if last.Text? then last.bytes else [])
  }

  /** A null mark makes the field null if it comes first and only once; text after
      it is ignored. */
  function FieldOf(tokens: seq<Token>): Option<Field> {
    if NullMark !in tokens then Some(Value(Joined(tokens)))
    else if tokens[0] == NullMark && NullMark !in tokens[1..] then Some(NullField)
    else None
  }

  /** Splits at the separators, given the fields and the part of a field before. */
  function Split(fields: seq<Field>, part: seq<Token>, tokens: seq<Token>): Option<seq<Field>>
    decreases |tokens|
  {
    if tokens == [] then
      match FieldOf(part)
      case None => None
      case Some(f) => Some(fields + [f])
    else if tokens[0] == Separator then
      match FieldOf(part)
      case None => None
      case Some(f) => Split(fields + [f], [], tokens[1..])
    else Split(fields, part + [tokens[0]], tokens[1..])
  }

  function Continue(enc: Encoding, line: seq<Byte>, at: nat, fields: seq<Field>, part: seq<Token>): Option<seq<Field>> {
    match Tokens(enc, line, at)
    case None => None
    case Some(tokens) => Split(fields, part, tokens)
  }

  /** The fields of a line, or None where the source throws. */
  function FieldsOf(enc: Encoding, line: seq<Byte>): Option<seq<Field>> {
    Continue(enc, line, 0, [], [])
  }

  lemma {:induction false} NoRepair(fields: seq<Field>, part: seq<Token>, tokens: seq<Token>)
    requires NullMark in part && (part[0] != NullMark || NullMark in part[1..])
    ensures Split(fields, part, tokens) == None
    decreases |tokens|
  {
    if tokens != [] && tokens[0] != Separator {
      assert (part + [tokens[0]])[1..] == part[1..] + [tokens[0]];
      NoRepair(fields, part + [tokens[0]], tokens[1..]);
    }
  }

  /** One token of the line, seen from the loop. */
  lemma ContinueStep(enc: Encoding, line: seq<Byte>, at: nat, fields: seq<Field>, part: seq<Token>)
    requires at < |line|
    ensures match TokenAt(enc, line, at)
            case None => Continue(enc, line, at, fields, part) == None
            case Some((token, next)) =>
              if token != Separator then
                Continue(enc, line, at, fields, part) == Continue(enc, line, next, fields, part + [token])
              else
                Continue(enc, line, at, fields, part) ==
                match FieldOf(part)
                case None => None
                case Some(f) => Continue(enc, line, next, fields + [f], [])
  {
  }

  lemma ContinueEnd(enc: Encoding, line: seq<Byte>, at: nat, fields: seq<Field>, part: seq<Token>)
    requires at >= |line|
    ensures Continue(enc, line, at, fields, part) ==
            match FieldOf(part)
            case None => None
            case Some(f) => Some(fields + [f])
  {
  }

  lemma BadPart(enc: Encoding, line: seq<Byte>, at: nat, fields: seq<Field>, part: seq<Token>)
    requires NullMark in part && (part[0] != NullMark || NullMark in part[1..])
    ensures Continue(enc, line, at, fields, part) == None
  {
    var tokens := Tokens(enc, line, at);
    if tokens.Some? {
      NoRepair(fields, part, tokens.value);
    }
  }

  // ---------------------------------------------------------------------
  // Reading: parse_line
  // ---------------------------------------------------------------------

  /** A field as a view into the row buffer. */
  datatype View = NullView | View(begin: nat, length: nat)

  const MAX_LINE := 0xFFFF_FFFF_FFFF_FFFF / 2

  /** The view shows the field, with a terminating zero after it. */
  ghost predicate Shows(row: seq<Byte>, v: View, f: Field) {
    match v
    case NullView => f == NullField
    case View(begin, length) =>
      begin + length < |row| && row[begin + length] == 0 && f == Value(row[begin..begin + length])
  }

  ghost predicate ShowsAll(row: seq<Byte>, views: seq<View>, fields: seq<Field>) {
    |views| == |fields| && forall i :: 0 <= i < |views| ==> Shows(row, views[i], fields[i])
  }

  predicate EndsBefore(v: View, limit: int) {
    v.View? ==> v.begin + v.length < limit
  }

  /** Tokens of one field: no separator, no empty text. */
  predicate Proper(part: seq<Token>) {
    forall t :: t in part ==> t != Separator && (t.Text? ==> t.bytes != [])
  }

  lemma StillShows(was: seq<Byte>, now: seq<Byte>, v: View, f: Field, limit: nat)
    requires Shows(was, v, f) && EndsBefore(v, limit)
    requires limit <= |was| == |now| && was[..limit] == now[..limit]
    ensures Shows(now, v, f)
  {
    if v.View? {
      var b, e := v.begin, v.begin + v.length;
      forall k | b <= k <= e ensures was[k] == now[k] {
        assert was[..limit][k] == now[..limit][k];
      }
      assert was[b..e] == now[b..e];
    }
  }

  lemma JoinedMore(part: seq<Token>, t: Token)
    ensures Joined(part + [t]) == Joined(part) + (if t.Text? then t.bytes else [])
  {
    assert (part + [t])[..|part|] == part;
  }

  lemma JoinedNonEmpty(part: seq<Token>)
    requires part != [] && Proper(part) && NullMark !in part
    ensures Joined(part) != []
  {
    assert part[|part| - 1] in part;
  }

  class StreamFrom {
    const enc: Encoding
    var row: array<Byte>
    var fields: seq<View>
    var finished: bool

    constructor (enc: Encoding)
      ensures this.enc == enc && !finished && fields == []
    {
      this.enc := enc;
      row := new Byte[0];
      fields, finished := [], false;
    }

    /** Between two steps of the loop: the finished fields, and what has been written
        of the current one. A begin of -1 marks a null field. */
    ghost predicate Writing(write: nat, begin: int, done: seq<Field>, part: seq<Token>)
      reads this, row
    {
      write <= row.Length && WritingTo(row[..], write, begin, done, part)
    }

    ghost predicate WritingTo(buffer: seq<Byte>, write: nat, begin: int, done: seq<Field>, part: seq<Token>)
      requires write <= |buffer|
      reads this
    {
      && ShowsAll(buffer, fields, done)
      && Proper(part)
      && (forall i :: 0 <= i < |fields| ==> EndsBefore(fields[i], if begin == -1 then write else begin))
      && if begin == -1 then part != [] && part[0] == NullMark && NullMark !in part[1..]
         else 0 <= begin <= write && NullMark !in part && buffer[begin..write] == Joined(part)
    }

    lemma PartIsField(write: nat, begin: int, done: seq<Field>, part: seq<Token>)
      requires Writing(write, begin, done, part)
      ensures FieldOf(part) == Some(if begin == -1 then NullField else Value(row[begin..write]))
    {
    }

    /** Writes one byte of the current field. */
    method Put(c: Byte, write: nat, begin: int, ghost done: seq<Field>, ghost part: seq<Token>)
      requires Writing(write, begin, done, part) && write < row.Length
      modifies row
      ensures Writing(write + 1, begin, done, part + [Text([c])])
    {
      row[write] := c;
      Written([c], write, begin, done, part, old(row[..]));
    }

    lemma Written(bytes: seq<Byte>, write: nat, begin: int, done: seq<Field>, part: seq<Token>, was: seq<Byte>)
      requires bytes != [] && write + |bytes| <= |was| == row.Length
      requires row[..] == was[..write] + bytes + was[write + |bytes|..]
      requires WritingTo(was, write, begin, done, part)
      ensures Writing(write + |bytes|, begin, done, part + [Text(bytes)])
    {
      hide Shows, Joined;
      forall i | 0 <= i < |fields|
        ensures Shows(row[..], fields[i], done[i])
      {
        StillShows(was, row[..], fields[i], done[i], write);
      }
      JoinedMore(part, Text(bytes));
      if begin == -1 {
        assert (part + [Text(bytes)])[1..] == part[1..] + [Text(bytes)];
      } else {
        assert row[..][begin..write + |bytes|] == was[begin..write] + bytes;
      }
    }

    /** Copies a longer glyph. */
    method PutAll(bytes: seq<Byte>, write: nat, begin: int, ghost done: seq<Field>, ghost part: seq<Token>)
      requires bytes != [] && Writing(write, begin, done, part) && write + |bytes| <= row.Length
      modifies row
      ensures Writing(write + |bytes|, begin, done, part + [Text(bytes)])
    {
      hide WritingTo;
      ghost var was := row[..];
      var i := 0;
      while i < |bytes|
        invariant i <= |bytes| && |was| == row.Length
        invariant row[..] == was[..write] + bytes[..i] + was[write + i..]
      {
        row[write + i] := bytes[i];
        i := i + 1;
      }
      Written(bytes, write, begin, done, part, was);
    }

    /** Ends the current field, with a terminating zero unless it is null. */
    method EndField(write: nat, begin: int, ghost done: seq<Field>, ghost part: seq<Token>) returns (next: nat)
      requires Writing(write, begin, done, part) && write < row.Length
      modifies this`fields, row
      ensures next == if begin == -1 then write else write + 1
      ensures FieldOf(part).Some? && Writing(next, next, done + [FieldOf(part).value], [])
    {
      PartIsField(write, begin, done, part);
      if begin == -1 {
        fields := fields + [NullView];
        return write;
      }
      ghost var was := row[..];
      fields := fields + [View(begin, write - begin)];
      row[write] := 0;
      next := write + 1;
      ghost var more := done + [FieldOf(part).value];
      forall i | 0 <= i < |fields|
        ensures Shows(row[..], fields[i], more[i])
      {
        if i < |done| {
          StillShows(was, row[..], fields[i], done[i], write);
        } else {
          assert row[..][begin..write] == was[begin..write];
        }
      }
    }

    /** Unescapes a line into the row buffer, behind its own reading. None stands for
        the end of the stream. */
    method ParseLine(input: Option<seq<Byte>>) returns (ok: bool)
      modifies this
      ensures old(finished) ==> ok && finished && fields == old(fields) && row == old(row)
      ensures !old(finished) && input.None? ==> ok && finished
      ensures !old(finished) && input.Some? ==>
                var expected := FieldsOf(enc, input.value);
                && (ok <==> |input.value| < MAX_LINE && expected.Some?)
                && (ok ==> !finished && ShowsAll(row[..], fields, expected.value))
    {
      ok := true;
      if finished {
        return;
      }
      fields := [];
      if input.None? {
        finished := true;
        return;
      }
      var line := input.value;
      if |line| >= MAX_LINE {
        return false;
      }
      row := new Byte[|line| + 1];
      EmptyRow();
      var read: nat, write: nat, begin: int := 0, 0, 0;
      ghost var done: seq<Field>, part: seq<Token> := [], [];
      hide Tokens, Split, Joined, FieldOf, Scan, Writing, Continue, TokenAt;
      while read < |line|
        invariant write <= read <= |line| && row.Length == |line| + 1 && fresh(row)
        invariant FieldsOf(enc, line) == Continue(enc, line, read, done, part)
        invariant Writing(write, begin, done, part)
        invariant !finished
      {
        ok, read, write, begin, done, part := UnescapeGlyph(line, read, write, begin, done, part);
        if !ok {
          return;
        }
      }
      ContinueEnd(enc, line, read, done, part);
      write := EndField(write, begin, done, part);
      StartedField(write, write, done + [FieldOf(part).value]);
    }

    /** One round of the loop: a glyph, or a backslash and the character after it. At
        most as many bytes are written as read. */
    method UnescapeGlyph(line: seq<Byte>, from: nat, to: nat, start: int,
                         ghost done0: seq<Field>, ghost part0: seq<Token>)
        returns (ok: bool, read: nat, write: nat, begin: int, ghost done: seq<Field>, ghost part: seq<Token>)
      requires to <= from < |line| < row.Length && Writing(to, start, done0, part0)
      modifies this`fields, row
      ensures ok ==> from < read <= |line| && write <= to + (read - from) && Writing(write, begin, done, part)
      ensures ok ==> Continue(enc, line, from, done0, part0) == Continue(enc, line, read, done, part)
      ensures !ok ==> Continue(enc, line, from, done0, part0) == None
    {
      hide Tokens, Split, Joined, FieldOf, Scan, Writing, Continue;
      ContinueStep(enc, line, from, done0, part0);
      ok, read, write, begin, done, part := true, from, to, start, done0, part0;
      var glyph := Scan(enc, line, read);
      if glyph.Malformed? {
        ok := false;
        return;
      }
      if glyph.pos == read + 1 {
        var c := line[read];
        read := read + 1;
        if c == TAB {
          write := EndField(write, begin, done, part);
          begin := write;
          done, part := done + [FieldOf(part).value], [];
        } else if c == BACKSLASH {
          if read >= |line| {
            ok := false;
            return;
          }
          c := line[read];
          read := read + 1;
          if c == LETTER_N {
            if write != begin {
              NullInField(write, begin, done, part);
              BadPart(enc, line, read, done, part + [NullMark]);
              ok := false;
              return;
            }
            NullFirst(write, begin, done, part);
            begin := -1;
            part := part + [NullMark];
          } else {
            Put(Unescape(c), write, begin, done, part);
            write := write + 1;
            part := part + [Text([Unescape(c)])];
          }
        } else {
          Put(c, write, begin, done, part);
          write := write + 1;
          part := part + [Text([c])];
        }
      } else {
        PutAll(line[read..glyph.pos], write, begin, done, part);
        write := write + (glyph.pos - read);
        part := part + [Text(line[read..glyph.pos])];
        read := glyph.pos;
      }
    }

    lemma EmptyRow()
      requires fields == []
      ensures Writing(0, 0, [], [])
    {
    }

    lemma StartedField(write: nat, begin: int, done: seq<Field>)
      requires Writing(write, begin, done, [])
      ensures ShowsAll(row[..], fields, done)
    {
    }

    /** A null mark in a field that has text already, or is null already. */
    lemma NullInField(write: nat, begin: int, done: seq<Field>, part: seq<Token>)
      requires Writing(write, begin, done, part) && write != begin
      ensures var longer := part + [NullMark];
              longer[0] != NullMark || NullMark in longer[1..]
    {
      if part != [] {
        assert (part + [NullMark])[1..] == part[1..] + [NullMark];
      }
    }

    lemma NullFirst(write: nat, begin: int, done: seq<Field>, part: seq<Token>)
      requires Writing(write, begin, done, part) && write == begin
      ensures Writing(write, -1, done, part + [NullMark])
    {
      if part != [] {
        JoinedNonEmpty(part);
      }
    }
  }

  // ---------------------------------------------------------------------
  // Writing: escape_field_to_buffer and write_buffer
  // ---------------------------------------------------------------------

  /** The letter a control character is written with; 0 for all others. */
  function EscapeLetter(c: Byte): Byte {
    if c == BACKSPACE then 98
    else if c == FORM_FEED then 102
    else if c == NEWLINE then 110
    else if c == RETURN then 114
    else if c == TAB then 116
    else if c == VERTICAL_TAB then 118
    else if c == BACKSLASH then BACKSLASH
    else 0
  }

  function OctalDigit(u: Byte, i: nat): Byte
    requires i <= 2
  {
    48 + (if i == 2 then u / 64 else if i == 1 then u / 8 % 8 else u % 8)
  }

  predicate Printable(c: Byte) {
    0x20 <= c <= 0x7e
  }

  function Escape(c: Byte): (r: seq<Byte>)
    ensures forall b :: b in r ==> b != TAB && b != NEWLINE && b < 0x80
  {
    if EscapeLetter(c) != 0 then [BACKSLASH, EscapeLetter(c)]
    else if Printable(c) then [c]
    else [BACKSLASH, OctalDigit(c, 2), OctalDigit(c, 1), OctalDigit(c, 0)]
  }

  function Escaped(text: seq<Byte>): (r: seq<Byte>)
    ensures forall b :: b in r ==> b != TAB && b != NEWLINE && b < 0x80
  {
    if text == [] then [] else Escape(text[0]) + Escaped(text[1..])
  }

  /** Fields as they accumulate in the buffer, each with a tab after it. */
  function Buffered(fields: seq<seq<Byte>>): seq<Byte> {
    if fields == [] then [] else Escaped(fields[0]) + [TAB] + Buffered(fields[1..])
  }

  lemma {:induction false} EscapedAppend(text: seq<Byte>, c: Byte)
    ensures Escaped(text + [c]) == Escaped(text) + Escape(c)
  {
    if text != [] {
      assert (text + [c])[1..] == text[1..] + [c];
      EscapedAppend(text[1..], c);
    }
  }

  lemma {:induction false} BufferedAppend(fields: seq<seq<Byte>>, text: seq<Byte>)
    ensures Buffered(fields + [text]) == Buffered(fields) + Escaped(text) + [TAB]
  {
    if fields != [] {
      assert (fields + [text])[1..] == fields[1..] + [text];
      BufferedAppend(fields[1..], text);
    }
  }

  /** The line sent for a row. */
  function Line(fields: seq<seq<Byte>>): seq<Byte> {
    if fields == [] then [] else Buffered(fields)[..|Buffered(fields)| - 1]
  }

  class StreamTo {
    var buffer: seq<Byte>

    constructor ()
      ensures buffer == []
    {
      buffer := [];
    }

    /** One byte of a field: a letter escape, an octal escape or the byte itself. */
    method EscapeByte(c: Byte)
      modifies this
      ensures buffer == old(buffer) + Escape(c)
    {
      hide OctalDigit, EscapeLetter;
      if EscapeLetter(c) != 0 {
        buffer := buffer + [BACKSLASH, EscapeLetter(c)];
      } else if c < 0x20 || c > 0x7e {
        buffer := buffer + [BACKSLASH];
        var i := 3;
        while i > 0
          invariant 0 <= i <= 3
          invariant buffer == old(buffer) + Escape(c)[..4 - i]
        {
          i := i - 1;
          buffer := buffer + [OctalDigit(c, i)];
        }
      } else {
        buffer := buffer + [c];
      }
    }

    method EscapeFieldToBuffer(text: seq<Byte>)
      modifies this
      ensures buffer == old(buffer) + Escaped(text) + [TAB]
    {
      assert Escaped(text[..0]) == [];
      hide Escaped, Escape;
      var n := 0;
      while n < |text|
        invariant n <= |text| && buffer == old(buffer) + Escaped(text[..n])
      {
        var c := text[n];
        EscapedAppend(text[..n], c);
        assert text[..n + 1] == text[..n] + [c];
        EscapeByte(c);
        n := n + 1;
      }
      assert text[..n] == text;
      buffer := buffer + [TAB];
    }

    /** Drops the tab after the last field, sends the line and clears the buffer. */
    method WriteBuffer(ghost fields: seq<seq<Byte>>) returns (line: seq<Byte>)
      requires buffer == Buffered(fields)
      modifies this
      ensures line == Line(fields) && buffer == []
    {
      if buffer != [] {
        buffer := buffer[..|buffer| - 1];
      }
      line := buffer;
      buffer := [];
    }
  }

  /** A row is written field by field, and then the buffer goes out as one line. */
  method WriteRow(fields: seq<seq<Byte>>) returns (line: seq<Byte>)
    ensures line == Line(fields)
  {
    hide Escaped;
    var out := new StreamTo();
    for n := 0 to |fields|
      invariant fresh(out) && out.buffer == Buffered(fields[..n])
    {
      BufferedAppend(fields[..n], fields[n]);
      assert fields[..n + 1] == fields[..n] + [fields[n]];
      out.EscapeFieldToBuffer(fields[n]);
    }
    assert fields[..|fields|] == fields;
    line := out.WriteBuffer(fields);
  }

  // ---------------------------------------------------------------------
  // What a written line looks like
  // ---------------------------------------------------------------------

  function Tabs(s: seq<Byte>): nat {
    if s == [] then 0 else (if s[0] == TAB then 1 else 0) + Tabs(s[1..])
  }

  lemma {:induction false} TabsAdd(a: seq<Byte>, b: seq<Byte>)
    ensures Tabs(a + b) == Tabs(a) + Tabs(b)
  {
    if a == [] {
      assert a + b == b;
    } else {
      assert (a + b)[1..] == a[1..] + b;
      TabsAdd(a[1..], b);
    }
  }

  lemma {:induction false} NoTabs(s: seq<Byte>)
    requires TAB !in s
    ensures Tabs(s) == 0
  {
    if s != [] {
      NoTabs(s[1..]);
    }
  }

  lemma {:induction false} BufferedShape(fields: seq<seq<Byte>>)
    ensures Tabs(Buffered(fields)) == |fields|
    ensures NEWLINE !in Buffered(fields)
    ensures forall b :: b in Buffered(fields) ==> b < 0x80
    ensures fields != [] ==> Buffered(fields) != [] && Buffered(fields)[|Buffered(fields)| - 1] == TAB
  {
    if fields != [] {
      BufferedShape(fields[1..]);
      NoTabs(Escaped(fields[0]));
      TabsAdd(Escaped(fields[0]), [TAB]);
      TabsAdd(Escaped(fields[0]) + [TAB], Buffered(fields[1..]));
    }
  }

  /** Whatever the bytes of the fields, the line holds no raw newline, no byte above
      ASCII, and exactly one tab less than fields. */
  lemma LineShape(fields: seq<seq<Byte>>)
    requires fields != []
    ensures Tabs(Line(fields)) == |fields| - 1
    ensures NEWLINE !in Line(fields)
    ensures forall b :: b in Line(fields) ==> b < 0x80
  {
    BufferedShape(fields);
    assert Buffered(fields) == Line(fields) + [TAB];
    assert Tabs([TAB]) == 1;
    hide Buffered, Line, Tabs;
    TabsAdd(Line(fields), [TAB]);
    forall b | b in Line(fields)
      ensures b < 0x80 && b != NEWLINE
    {
      assert b in Buffered(fields);
    }
  }

  // ---------------------------------------------------------------------
  // Reading back what was written
  // ---------------------------------------------------------------------

  /** Characters written as themselves or as a letter escape; the others are written
      in octal, which only the server undoes. */
  predicate Plain(c: Byte) {
    Printable(c) || EscapeLetter(c) != 0
  }

  /** What the reader makes of one written character. */
  function Reread(c: Byte): seq<Byte> {
    if Plain(c) then [c] else [OctalDigit(c, 2), OctalDigit(c, 1), OctalDigit(c, 0)]
  }

  function RereadAll(text: seq<Byte>): seq<Byte> {
    if text == [] then [] else Reread(text[0]) + RereadAll(text[1..])
  }

  function RereadFields(fields: seq<seq<Byte>>): seq<Field> {
    seq(|fields|, i requires 0 <= i < |fields| => Value(RereadAll(fields[i])))
  }

  function Values(fields: seq<seq<Byte>>): seq<Field> {
    seq(|fields|, i requires 0 <= i < |fields| => Value(fields[i]))
  }

  /** The tokens of ASCII text, where every encoding agrees. */
  function AsciiTokens(s: seq<Byte>): Option<seq<Token>> {
    if s == [] then Some([])
    else if s[0] == BACKSLASH && |s| == 1 then None
    else
      var length := if s[0] == BACKSLASH then 2 else 1;
      var token :=
        if s[0] == TAB then Separator
        else if s[0] != BACKSLASH then Text([s[0]])
        else if s[1] == LETTER_N then NullMark
        else Text([Unescape(s[1])]);
      match AsciiTokens(s[length..])
      case None => None
      case Some(rest) => Some([token] + rest)
  }

  lemma AsciiToken(enc: Encoding, line: seq<Byte>, at: nat)
    requires at < |line| && line[at] < 0x80
    ensures TokenAt(enc, line, at) ==
            if line[at] == TAB then Some((Separator, at + 1))
            else if line[at] != BACKSLASH then Some((Text([line[at]]), at + 1))
            else if at + 1 >= |line| then None
            else if line[at + 1] == LETTER_N then Some((NullMark, at + 2))
            else Some((Text([Unescape(line[at + 1])]), at + 2))
  {
  }

  lemma {:induction false} TokensOfAscii(enc: Encoding, line: seq<Byte>, at: nat)
    requires at <= |line| && forall b :: b in line ==> b < 0x80
    ensures Tokens(enc, line, at) == AsciiTokens(line[at..])
    decreases |line| - at
  {
    hide Scan, TokenAt, Unescape;
    if at < |line| {
      assert line[at] in line;
      AsciiToken(enc, line, at);
      var s := line[at..];
      assert s[0] == line[at] && |s| == |line| - at;
      if line[at] != BACKSLASH {
        TokensOfAscii(enc, line, at + 1);
        assert s[1..] == line[at + 1..];
      } else if at + 1 < |line| {
        TokensOfAscii(enc, line, at + 2);
        assert s[1] == line[at + 1];
        assert s[2..] == line[at + 2..];
      }
    }
  }

  function TextTokens(text: seq<Byte>): seq<Token> {
    seq(|text|, i requires 0 <= i < |text| => Text([text[i]]))
  }

  lemma EscapeTokens(c: Byte, rest: seq<Byte>, tokens: seq<Token>)
    requires AsciiTokens(rest) == Some(tokens)
    ensures AsciiTokens(Escape(c) + rest) == Some(TextTokens(Reread(c)) + tokens)
  {
    if Plain(c) {
      var s := Escape(c) + rest;
      assert s[|Escape(c)|..] == rest;
      assert TextTokens([c]) == [Text([c])];
    } else {
      OctalTokens(c, rest, tokens);
    }
  }

  lemma OctalTokens(c: Byte, rest: seq<Byte>, tokens: seq<Token>)
    requires AsciiTokens(rest) == Some(tokens) && !Plain(c)
    ensures AsciiTokens(Escape(c) + rest) == Some(TextTokens(Reread(c)) + tokens)
  {
    hide OctalDigit, AsciiTokens, Unescape, EscapeLetter, TextTokens;
    OctalDigits(c);
    var d2, d1, d0 := OctalDigit(c, 2), OctalDigit(c, 1), OctalDigit(c, 0);
    ThreeTexts(d2, d1, d0);
    OctalIsRead(d2, d1, d0, rest, tokens);
  }

  lemma OctalIsRead(d2: Byte, d1: Byte, d0: Byte, rest: seq<Byte>, tokens: seq<Token>)
    requires AsciiTokens(rest) == Some(tokens) && 48 <= d2 < 56 && 48 <= d1 < 56 && 48 <= d0 < 56
    ensures AsciiTokens([BACKSLASH, d2, d1, d0] + rest) == Some([Text([d2]), Text([d1]), Text([d0])] + tokens)
  {
    hide AsciiTokens;
    DigitToken(d0, rest, tokens);
    DigitToken(d1, [d0] + rest, [Text([d0])] + tokens);
    EscapedToken(d2, [d1] + ([d0] + rest), [Text([d1])] + ([Text([d0])] + tokens));
    Regroup([BACKSLASH, d2], d1, d0, rest);
    Regroup([Text([d2])], Text([d1]), Text([d0]), tokens);
    assert [BACKSLASH, d2] + [d1, d0] == [BACKSLASH, d2, d1, d0];
    assert [Text([d2])] + [Text([d1]), Text([d0])] == [Text([d2]), Text([d1]), Text([d0])];
  }

  lemma Regroup<T>(front: seq<T>, a: T, b: T, rest: seq<T>)
    ensures front + [a, b] + rest == front + ([a] + ([b] + rest))
  {
  }

  lemma OctalDigits(c: Byte)
    ensures 48 <= OctalDigit(c, 2) < 56 && 48 <= OctalDigit(c, 1) < 56 && 48 <= OctalDigit(c, 0) < 56
  {
  }

  lemma ThreeTexts(a: Byte, b: Byte, c: Byte)
    ensures TextTokens([a, b, c]) == [Text([a]), Text([b]), Text([c])]
  {
  }

  lemma EscapedToken(d: Byte, rest: seq<Byte>, tokens: seq<Token>)
    requires 48 <= d < 56 && AsciiTokens(rest) == Some(tokens)
    ensures AsciiTokens([BACKSLASH, d] + rest) == Some([Text([d])] + tokens)
  {
    assert ([BACKSLASH, d] + rest)[2..] == rest;
  }

  lemma DigitToken(d: Byte, rest: seq<Byte>, tokens: seq<Token>)
    requires 48 <= d < 56 && AsciiTokens(rest) == Some(tokens)
    ensures AsciiTokens([d] + rest) == Some([Text([d])] + tokens)
  {
    assert ([d] + rest)[1..] == rest;
  }

  lemma {:induction false} EscapedTokens(text: seq<Byte>, rest: seq<Byte>, tokens: seq<Token>)
    requires AsciiTokens(rest) == Some(tokens)
    ensures AsciiTokens(Escaped(text) + rest) == Some(TextTokens(RereadAll(text)) + tokens)
  {
    hide AsciiTokens, Escape, Reread;
    if text == [] {
      assert Escaped(text) + rest == rest;
      assert TextTokens(RereadAll(text)) + tokens == tokens;
    } else {
      var first, others := TextTokens(Reread(text[0])), TextTokens(RereadAll(text[1..]));
      EscapedTokens(text[1..], rest, tokens);
      EscapeTokens(text[0], Escaped(text[1..]) + rest, others + tokens);
      assert Escaped(text) + rest == Escape(text[0]) + (Escaped(text[1..]) + rest);
      assert TextTokens(RereadAll(text)) == first + others;
      assert first + (others + tokens) == TextTokens(RereadAll(text)) + tokens;
    }
  }

  lemma {:induction false} JoinedTexts(text: seq<Byte>)
    ensures Joined(TextTokens(text)) == text
    decreases |text|
  {
    if text != [] {
      var init := text[..|text| - 1];
      JoinedTexts(init);
      assert TextTokens(text)[..|text| - 1] == TextTokens(init);
    }
  }

  lemma {:induction false} SplitTexts(fields: seq<Field>, part: seq<Token>, text: seq<Byte>, rest: seq<Token>)
    ensures Split(fields, part, TextTokens(text) + rest) == Split(fields, part + TextTokens(text), rest)
    decreases |text|
  {
    if text == [] {
      assert TextTokens(text) + rest == rest;
      assert part + TextTokens(text) == part;
    } else {
      var t := Text([text[0]]);
      assert (TextTokens(text) + rest)[1..] == TextTokens(text[1..]) + rest;
      SplitTexts(fields, part + [t], text[1..], rest);
      assert part + TextTokens(text) == (part + [t]) + TextTokens(text[1..]);
    }
  }

  lemma FieldOfTexts(text: seq<Byte>)
    ensures FieldOf(TextTokens(text)) == Some(Value(text))
  {
    JoinedTexts(text);
  }

  lemma LineCons(fields: seq<seq<Byte>>)
    requires fields != []
    ensures Line(fields) ==
            if |fields| == 1 then Escaped(fields[0]) else Escaped(fields[0]) + ([TAB] + Line(fields[1..]))
  {
    hide Escaped, Tabs;
    BufferedShape(fields[1..]);
    var first, rest := Escaped(fields[0]), Buffered(fields[1..]);
    assert Buffered(fields) == first + [TAB] + rest;
    if |fields| == 1 {
      assert rest == [];
      assert (first + [TAB] + rest)[..|first|] == first;
    } else {
      assert (first + [TAB] + rest)[..|first| + 1 + |rest| - 1] == first + ([TAB] + rest[..|rest| - 1]);
    }
  }

  /** Token by token, the reader finds each field as its characters reread. */
  lemma {:induction false} LineTokens(fields: seq<seq<Byte>>, done: seq<Field>) returns (tokens: seq<Token>)
    requires fields != []
    ensures AsciiTokens(Line(fields)) == Some(tokens)
    ensures Split(done, [], tokens) == Some(done + RereadFields(fields))
  {
    hide Escaped, RereadAll, Joined, FieldOf, AsciiTokens, TextTokens, Line;
    var text := RereadAll(fields[0]);
    LineCons(fields);
    FieldOfTexts(text);
    if |fields| == 1 {
      NoTokens();
      EscapedTokens(fields[0], [], []);
      assert Escaped(fields[0]) + [] == Escaped(fields[0]);
      tokens := TextTokens(text) + [];
      SplitTexts(done, [], text, []);
      assert [] + TextTokens(text) == TextTokens(text);
      assert RereadFields(fields) == [Value(text)];
    } else {
      var more := done + [Value(text)];
      var rest := LineTokens(fields[1..], more);
      TabToken(Line(fields[1..]), rest);
      EscapedTokens(fields[0], [TAB] + Line(fields[1..]), [Separator] + rest);
      tokens := TextTokens(text) + ([Separator] + rest);
      SplitTexts(done, [], text, [Separator] + rest);
      assert [] + TextTokens(text) == TextTokens(text);
      assert ([Separator] + rest)[1..] == rest;
      assert more + RereadFields(fields[1..]) == done + RereadFields(fields);
    }
  }

  lemma NoTokens()
    ensures AsciiTokens([]) == Some([])
  {
  }

  lemma TabToken(rest: seq<Byte>, tokens: seq<Token>)
    requires AsciiTokens(rest) == Some(tokens)
    ensures AsciiTokens([TAB] + rest) == Some([Separator] + tokens)
  {
    assert ([TAB] + rest)[1..] == rest;
  }

  lemma {:induction false} RereadLength(text: seq<Byte>)
    ensures |RereadAll(text)| >= |text|
    ensures RereadAll(text) == text <==> forall c :: c in text ==> Plain(c)
  {
    if text != [] {
      RereadLength(text[1..]);
      if Plain(text[0]) {
        assert RereadAll(text)[1..] == RereadAll(text[1..]);
      } else {
        assert text[0] in text;
        assert |RereadAll(text)| > |text|;
      }
    }
  }

  /** In every encoding, a written row is read back as its characters reread; it is
      read back unchanged exactly when it has a field and every character is plain. */
  lemma CopyRoundTrip(enc: Encoding, fields: seq<seq<Byte>>)
    ensures fields != [] ==> FieldsOf(enc, Line(fields)) == Some(RereadFields(fields))
    ensures FieldsOf(enc, Line(fields)) == Some(Values(fields))
            <==> fields != [] && forall f :: f in fields ==> forall c :: c in f ==> Plain(c)
  {
    hide Tokens, Split, Line, RereadAll, AsciiTokens;
    if fields == [] {
      EmptyLine(enc);
    } else {
      LineShape(fields);
      TokensOfAscii(enc, Line(fields), 0);
      assert Line(fields)[0..] == Line(fields);
      var tokens := LineTokens(fields, []);
      assert [] + RereadFields(fields) == RereadFields(fields);
      forall i | 0 <= i < |fields|
        ensures RereadAll(fields[i]) == fields[i] <==> forall c :: c in fields[i] ==> Plain(c)
      {
        RereadLength(fields[i]);
      }
      SameFields(fields);
      if forall f :: f in fields ==> forall c :: c in f ==> Plain(c) {
        assert forall i :: 0 <= i < |fields| ==> fields[i] in fields;
      }
    }
  }

  /** Writing a row and reading the line: if it is not too long, the reader shows each
      field as its characters reread, so every row of plain fields comes back as it is. */
  method WriteAndRead(enc: Encoding, fields: seq<seq<Byte>>) returns (ok: bool, s: StreamFrom)
    ensures ok <==> |Line(fields)| < MAX_LINE
    ensures ok && fields != [] ==> ShowsAll(s.row[..], s.fields, RereadFields(fields))
    ensures ok && fields != [] && (forall f :: f in fields ==> forall c :: c in f ==> Plain(c)) ==>
              ShowsAll(s.row[..], s.fields, Values(fields))
  {
    hide Line, FieldsOf, RereadFields, Values, ShowsAll;
    var line := WriteRow(fields);
    s := new StreamFrom(enc);
    ok := s.ParseLine(Some(line));
    CopyRoundTrip(enc, fields);
    EmptyRowIsRead(enc);
  }

  lemma EmptyRowIsRead(enc: Encoding)
    ensures FieldsOf(enc, Line([])).Some?
  {
    EmptyLine(enc);
  }

  lemma SameFields(fields: seq<seq<Byte>>)
    ensures RereadFields(fields) == Values(fields)
            <==> forall i :: 0 <= i < |fields| ==> RereadAll(fields[i]) == fields[i]
  {
    hide RereadAll;
    if RereadFields(fields) == Values(fields) {
      forall i | 0 <= i < |fields|
        ensures RereadAll(fields[i]) == fields[i]
      {
        assert RereadFields(fields)[i] == Values(fields)[i];
      }
    }
  }

  lemma EmptyLine(enc: Encoding)
    ensures FieldsOf(enc, Line([])) == Some([Value([])]) && Values([]) == []
  {
    var none: seq<Token>, before: seq<Field> := [], [];
    assert Tokens(enc, Line([]), 0) == Some(none);
    assert FieldOf(none) == Some(Value([]));
    assert Split(before, none, none) == Some(before + [Value([])]);
    assert before + [Value([])] == [Value([])];
  }
}
