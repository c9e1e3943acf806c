/** Glyph scanning and searching in multi-byte text (encodings.cxx, encodings.hxx). */
module Encodings {
  import opened Common

  datatype Encoding =
    | MONOBYTE | BIG5 | EUC_CN | EUC_JP | EUC_JIS_2004 | EUC_KR | EUC_TW
    | GBK | SJIS | SHIFT_JIS_2004 | UHC | UTF8

  /** A scanner answers with the next glyph's position, with npos at the end of the
      buffer, or throws on a malformed glyph. */
  datatype Step = Next(pos: nat) | NoPosition | Malformed

  predicate Between(b: Byte, bottom: int, top: int) {
    bottom <= b <= top
  }

  function ScanEucJpLike(buffer: seq<Byte>, start: nat): Step
    requires start < |buffer|
  {
    var byte1 := buffer[start];
    if byte1 < 0x80 then Next(start + 1)
    else if start + 2 > |buffer| then Malformed
    else
      var byte2 := buffer[start + 1];
      if byte1 == 0x8e then
        if Between(byte2, 0xa1, 0xfe) then Next(start + 2) else Malformed
      else if Between(byte1, 0xa1, 0xfe) then
        if Between(byte2, 0xa1, 0xfe) then Next(start + 2) else Malformed
      else if byte1 == 0x8f && start + 3 <= |buffer| then
        var byte3 := buffer[start + 2];
        if Between(byte2, 0xa1, 0xfe) && Between(byte3, 0xa1, 0xfe) then Next(start + 3) else Malformed
      else Malformed
  }

  function ScanSjisLike(buffer: seq<Byte>, start: nat): Step
    requires start < |buffer|
  {
    var byte1 := buffer[start];
    if byte1 < 0x80 || Between(byte1, 0xa1, 0xdf) then Next(start + 1)
    else if !Between(byte1, 0x81, 0x9f) && !Between(byte1, 0xe0, 0xfc) then Malformed
    else if start + 2 > |buffer| then Malformed
    else
      var byte2 := buffer[start + 1];
      if byte2 == 0x7f then Malformed
      else if Between(byte2, 0x40, 0x9e) || Between(byte2, 0x9f, 0xfc) then Next(start + 2)
      else Malformed
  }

  function ScanBig5(buffer: seq<Byte>, start: nat): Step
    requires start < |buffer|
  {
    var byte1 := buffer[start];
    if byte1 < 0x80 then Next(start + 1)
    else if !Between(byte1, 0x81, 0xfe) || start + 2 > |buffer| then Malformed
    else
      var byte2 := buffer[start + 1];
      if !Between(byte2, 0x40, 0x7e) && !Between(byte2, 0xa1, 0xfe) then Malformed
      else Next(start + 2)
  }

  /** EUC_CN and EUC_KR differ in the range of the first byte. */
  function ScanEucTwoByte(buffer: seq<Byte>, start: nat, top: int): Step
    requires start < |buffer|
  {
    var byte1 := buffer[start];
    if byte1 < 0x80 then Next(start + 1)
    else if !Between(byte1, 0xa1, top) || start + 2 > |buffer| then Malformed
    else if !Between(buffer[start + 1], 0xa1, 0xfe) then Malformed
    else Next(start + 2)
  }

  function ScanEucTw(buffer: seq<Byte>, start: nat): Step
    requires start < |buffer|
  {
    var byte1 := buffer[start];
    if byte1 < 0x80 then Next(start + 1)
    else if start + 2 > |buffer| then Malformed
    else
      var byte2 := buffer[start + 1];
      if Between(byte1, 0xa1, 0xfe) then
        if Between(byte2, 0xa1, 0xfe) then Next(start + 2) else Malformed
      else if byte1 != 0x8e || start + 4 > |buffer| then Malformed
      else if Between(byte2, 0xa1, 0xb0) && Between(buffer[start + 2], 0xa1, 0xfe)
              && Between(buffer[start + 3], 0xa1, 0xfe) then Next(start + 4)
      else Malformed
  }

  function ScanGbk(buffer: seq<Byte>, start: nat): Step
    requires start < |buffer|
  {
    var byte1 := buffer[start];
    if byte1 < 0x80 then Next(start + 1)
    else if start + 2 > |buffer| then Malformed
    else
      var byte2 := buffer[start + 1];
      if || (Between(byte1, 0xa1, 0xa9) && Between(byte2, 0xa1, 0xfe))
         || (Between(byte1, 0xb0, 0xf7) && Between(byte2, 0xa1, 0xfe))
         || (Between(byte1, 0x81, 0xa0) && Between(byte2, 0x40, 0xfe) && byte2 != 0x7f)
         || (Between(byte1, 0xaa, 0xfe) && Between(byte2, 0x40, 0xa0) && byte2 != 0x7f)
         || (Between(byte1, 0xa8, 0xa9) && Between(byte2, 0x40, 0xa0) && byte2 != 0x7f)
         || (Between(byte1, 0xaa, 0xaf) && Between(byte2, 0xa1, 0xfe))
         || (Between(byte1, 0xf8, 0xfe) && Between(byte2, 0xa1, 0xfe))
         || (Between(byte1, 0xa1, 0xa7) && Between(byte2, 0x40, 0xa0) && byte2 != 0x7f)
      then Next(start + 2)
      else Malformed
  }

  function ScanUhc(buffer: seq<Byte>, start: nat): Step
    requires start < |buffer|
  {
    var byte1 := buffer[start];
    if byte1 < 0x80 then Next(start + 1)
    else if start + 2 > |buffer| then Malformed
    else
      var byte2 := buffer[start + 1];
      if Between(byte1, 0x80, 0xc6) then
        if Between(byte2, 0x41, 0x5a) || Between(byte2, 0x61, 0x7a) || Between(byte2, 0x80, 0xfe) then Next(start + 2)
        else Malformed
      else if Between(byte1, 0xa1, 0xfe) then
        if Between(byte2, 0xa1, 0xfe) then Next(start + 2) else Malformed
      else Malformed
  }

  function ScanUtf8(buffer: seq<Byte>, start: nat): Step
    requires start < |buffer|
  {
    var byte1 := buffer[start];
    if byte1 < 0x80 then Next(start + 1)
    else if start + 2 > |buffer| then Malformed
    else
      var byte2 := buffer[start + 1];
      if Between(byte1, 0xc0, 0xdf) then
        if Between(byte2, 0x80, 0xbf) then Next(start + 2) else Malformed
      else if start + 3 > |buffer| then Malformed
      else
        var byte3 := buffer[start + 2];
        if Between(byte1, 0xe0, 0xef) then
          if Between(byte2, 0x80, 0xbf) && Between(byte3, 0x80, 0xbf) then Next(start + 3) else Malformed
        else if start + 4 > |buffer| then Malformed
        else if Between(byte1, 0xf0, 0xf7) && Between(byte2, 0x80, 0xbf) && Between(byte3, 0x80, 0xbf)
                && Between(buffer[start + 3], 0x80, 0xbf) then Next(start + 4)
        else Malformed
  }

  /** The least byte a glyph's second or later byte can have. */
  function TrailFloor(enc: Encoding): int {
    if enc in {MONOBYTE, EUC_CN, EUC_JP, EUC_JIS_2004, EUC_KR, EUC_TW, UTF8} then 0x80 else 0x40
  }

  /** The scanner of an encoding: always forward, never past the end, and only over
      bytes that cannot be mistaken for low ASCII. */
  function Scan(enc: Encoding, buffer: seq<Byte>, start: nat): (step: Step)
    ensures step.NoPosition? <==> start >= |buffer|
    ensures step.Next? ==> start < step.pos <= |buffer| && step.pos <= start + 4
    ensures step.Next? ==> forall i :: start < i < step.pos ==> buffer[i] >= TrailFloor(enc)
    ensures start < |buffer| && buffer[start] < 0x80 ==> step == Next(start + 1)
  {
    if start >= |buffer| then NoPosition
    else
      match enc
      case MONOBYTE => Next(start + 1)
      case BIG5 => ScanBig5(buffer, start)
      case EUC_CN => ScanEucTwoByte(buffer, start, 0xf7)
      case EUC_JP => ScanEucJpLike(buffer, start)
      case EUC_JIS_2004 => ScanEucJpLike(buffer, start)
      case EUC_KR => ScanEucTwoByte(buffer, start, 0xfe)
      case EUC_TW => ScanEucTw(buffer, start)
      case GBK => ScanGbk(buffer, start)
      case SJIS => ScanSjisLike(buffer, start)
      case SHIFT_JIS_2004 => ScanSjisLike(buffer, start)
      case UHC => ScanUhc(buffer, start)
      case UTF8 => ScanUtf8(buffer, start)
  }

  // ---------------------------------------------------------------------
  // What a glyph is
  // ---------------------------------------------------------------------

  /** Single bytes that are a character of their own. */
  predicate Single(enc: Encoding, a: Byte) {
    a < 0x80 || enc == MONOBYTE || (enc in {SJIS, SHIFT_JIS_2004} && 0xa1 <= a <= 0xdf)
  }

  /** Two bytes, by the rows and columns of the character set. */
  predicate Pair(enc: Encoding, a: Byte, b: Byte) {
    match enc
    case MONOBYTE => false
    case BIG5 => 0x81 <= a <= 0xfe && (0x40 <= b <= 0x7e || 0xa1 <= b <= 0xfe)
    case EUC_CN => 0xa1 <= a <= 0xf7 && 0xa1 <= b <= 0xfe
    case EUC_JP => (a == 0x8e || 0xa1 <= a <= 0xfe) && 0xa1 <= b <= 0xfe
    case EUC_JIS_2004 => (a == 0x8e || 0xa1 <= a <= 0xfe) && 0xa1 <= b <= 0xfe
    case EUC_KR => 0xa1 <= a <= 0xfe && 0xa1 <= b <= 0xfe
    case EUC_TW => 0xa1 <= a <= 0xfe && 0xa1 <= b <= 0xfe
    case GBK => 0x81 <= a <= 0xfe && 0x40 <= b <= 0xfe && b != 0x7f
    case SJIS => (0x81 <= a <= 0x9f || 0xe0 <= a <= 0xfc) && 0x40 <= b <= 0xfc && b != 0x7f
    case SHIFT_JIS_2004 => (0x81 <= a <= 0x9f || 0xe0 <= a <= 0xfc) && 0x40 <= b <= 0xfc && b != 0x7f
    case UHC =>
      || (0x80 <= a <= 0xc6 && (0x41 <= b <= 0x5a || 0x61 <= b <= 0x7a || 0x80 <= b <= 0xfe))
      || (0xc7 <= a <= 0xfe && 0xa1 <= b <= 0xfe)
    case UTF8 => 0xc0 <= a <= 0xdf && 0x80 <= b <= 0xbf
  }

  predicate Triple(enc: Encoding, a: Byte, b: Byte, c: Byte) {
    if enc in {EUC_JP, EUC_JIS_2004} then a == 0x8f && 0xa1 <= b <= 0xfe && 0xa1 <= c <= 0xfe
    else enc == UTF8 && 0xe0 <= a <= 0xef && 0x80 <= b <= 0xbf && 0x80 <= c <= 0xbf
  }

  predicate Quadruple(enc: Encoding, a: Byte, b: Byte, c: Byte, d: Byte) {
    if enc == EUC_TW then a == 0x8e && 0xa1 <= b <= 0xb0 && 0xa1 <= c <= 0xfe && 0xa1 <= d <= 0xfe
    else enc == UTF8 && 0xf0 <= a <= 0xf7 && 0x80 <= b <= 0xbf && 0x80 <= c <= 0xbf && 0x80 <= d <= 0xbf
  }

  /** The byte strings that are one glyph. No two of them start alike. */
  predicate Glyph(enc: Encoding, g: seq<Byte>) {
    || (|g| == 1 && Single(enc, g[0]))
    || (|g| == 2 && Pair(enc, g[0], g[1]))
    || (|g| == 3 && Triple(enc, g[0], g[1], g[2]))
    || (|g| == 4 && Quadruple(enc, g[0], g[1], g[2], g[3]))
  }

  /** Wherever it stands, the scanner steps over exactly one glyph, and over any. In
      particular the eight regions of GBK's scanner leave no hole. */
  lemma ScanIsExact(enc: Encoding, buffer: seq<Byte>, start: nat, end: nat)
    requires start < |buffer|
    ensures Scan(enc, buffer, start) == Next(end)
            <==> start < end <= |buffer| && Glyph(enc, buffer[start..end])
  {
  }

  /** It refuses exactly the positions where no glyph stands. */
  lemma RefusedIffNoGlyph(enc: Encoding, buffer: seq<Byte>, start: nat)
    requires start < |buffer|
    ensures Scan(enc, buffer, start) == Malformed
            <==> forall end :: start < end <= |buffer| ==> !Glyph(enc, buffer[start..end])
  {
    hide Scan, Glyph;
    forall end: nat | start < end <= |buffer|
      ensures Glyph(enc, buffer[start..end]) <==> Scan(enc, buffer, start) == Next(end)
    {
      ScanIsExact(enc, buffer, start, end);
    }
    var step := Scan(enc, buffer, start);
    if step.Next? {
      assert Glyph(enc, buffer[start..step.pos]);
    }
  }

  // ---------------------------------------------------------------------
  // Glyph boundaries
  // ---------------------------------------------------------------------

  /** The scanner accepts every glyph from `start` on. */
  predicate Accepts(enc: Encoding, text: seq<Byte>, start: nat)
    decreases |text| - start
  {
    start >= |text| || (var step := Scan(enc, text, start); step.Next? && Accepts(enc, text, step.pos))
  }

  /** Scanning from `start` stops at b, the end of the text included. */
  predicate Boundary(enc: Encoding, text: seq<Byte>, start: nat, b: nat)
    decreases |text| - start
  {
    b == start ||
    (start < |text| && var step := Scan(enc, text, start); step.Next? && Boundary(enc, text, step.pos, b))
  }

  predicate MatchAt(text: seq<Byte>, needle: seq<Byte>, p: nat) {
    p + |needle| <= |text| && text[p..p + |needle|] == needle
  }

  lemma {:induction false} BoundaryIsAhead(enc: Encoding, text: seq<Byte>, start: nat, b: nat)
    requires Boundary(enc, text, start, b)
    ensures start <= b && (start <= |text| ==> b <= |text|)
    decreases |text| - start
  {
    if b != start {
      BoundaryIsAhead(enc, text, Scan(enc, text, start).pos, b);
    }
  }

  /** In accepted text, every byte below the encoding's trail bytes starts a glyph. */
  lemma {:induction false} LowByteStartsGlyph(enc: Encoding, text: seq<Byte>, start: nat, p: nat)
    requires Accepts(enc, text, start) && start <= p < |text|
    requires text[p] < TrailFloor(enc)
    ensures Boundary(enc, text, start, p)
    decreases |text| - start
  {
    if start < p {
      LowByteStartsGlyph(enc, text, Scan(enc, text, start).pos, p);
    }
  }

  // ---------------------------------------------------------------------
  // Text as a sequence of glyphs
  // ---------------------------------------------------------------------

  function Concat(gs: seq<seq<Byte>>): seq<Byte> {
    if gs == [] then [] else gs[0] + Concat(gs[1..])
  }

  predicate AllGlyphs(enc: Encoding, gs: seq<seq<Byte>>) {
    forall k :: 0 <= k < |gs| ==> Glyph(enc, gs[k])
  }

  lemma GlyphIsStepped(enc: Encoding, text: seq<Byte>, start: nat, gs: seq<seq<Byte>>)
    requires start <= |text| && text[start..] == Concat(gs) && gs != [] && Glyph(enc, gs[0])
    ensures start < |text| && Scan(enc, text, start) == Next(start + |gs[0]|)
    ensures start + |gs[0]| <= |text| && text[start + |gs[0]|..] == Concat(gs[1..])
  {
    hide Glyph, Scan;
    GlyphIsNotEmpty(enc, gs[0]);
    var end := start + |gs[0]|;
    assert text[start..] == gs[0] + Concat(gs[1..]);
    assert text[start..end] == text[start..][..|gs[0]|] == gs[0];
    assert text[end..] == text[start..][|gs[0]|..];
    ScanIsExact(enc, text, start, end);
  }

  lemma GlyphIsNotEmpty(enc: Encoding, g: seq<Byte>)
    ensures Glyph(enc, g) ==> 1 <= |g| <= 4
  {
  }

  lemma {:induction false} GlyphsAreAccepted(enc: Encoding, text: seq<Byte>, start: nat, gs: seq<seq<Byte>>)
    requires start <= |text| && text[start..] == Concat(gs) && AllGlyphs(enc, gs)
    ensures Accepts(enc, text, start)
    decreases |gs|
  {
    hide Glyph, Scan;
    if gs != [] {
      GlyphIsStepped(enc, text, start, gs);
      GlyphsAreAccepted(enc, text, start + |gs[0]|, gs[1..]);
    }
  }

  /** So many bytes are the first few glyphs. */
  ghost predicate IsCut(gs: seq<seq<Byte>>, n: int) {
    exists k :: 0 <= k <= |gs| && n == |Concat(gs[..k])|
  }

  lemma CutStep(gs: seq<seq<Byte>>, n: int)
    ensures IsCut(gs, n) <==> n == 0 || (gs != [] && IsCut(gs[1..], n - |gs[0]|))
  {
    assert Concat(gs[..0]) == [];
    forall k | 0 <= k < |gs|
      ensures |Concat(gs[..k + 1])| == |gs[0]| + |Concat(gs[1..][..k])|
    {
      assert gs[..k + 1][1..] == gs[1..][..k];
    }
    if gs != [] && IsCut(gs[1..], n - |gs[0]|) {
      var k :| 0 <= k <= |gs[1..]| && n - |gs[0]| == |Concat(gs[1..][..k])|;
      assert n == |Concat(gs[..k + 1])|;
    }
    if k :| 0 < k <= |gs| && n == |Concat(gs[..k])| {
      assert n - |gs[0]| == |Concat(gs[1..][..k - 1])|;
    }
  }

  /** The scan stops exactly between the glyphs. */
  lemma {:induction false} BoundariesAreCuts(enc: Encoding, text: seq<Byte>, start: nat, gs: seq<seq<Byte>>, p: nat)
    requires start <= |text| && text[start..] == Concat(gs) && AllGlyphs(enc, gs)
    ensures Boundary(enc, text, start, p) <==> IsCut(gs, p - start)
    decreases |gs|
  {
    hide Glyph, Scan, IsCut;
    CutStep(gs, p - start);
    if gs != [] {
      GlyphIsStepped(enc, text, start, gs);
      BoundariesAreCuts(enc, text, start + |gs[0]|, gs[1..], p);
    }
  }

  /** Every accepted text is a sequence of glyphs. */
  lemma {:induction false} AcceptedIsGlyphs(enc: Encoding, text: seq<Byte>, start: nat) returns (gs: seq<seq<Byte>>)
    requires Accepts(enc, text, start) && start <= |text|
    ensures AllGlyphs(enc, gs) && text[start..] == Concat(gs)
    decreases |text| - start
  {
    hide Glyph, Scan;
    gs := [];
    if start < |text| {
      var next := Scan(enc, text, start).pos;
      ScanIsExact(enc, text, start, next);
      var rest := AcceptedIsGlyphs(enc, text, next);
      gs := [text[start..next]] + rest;
      assert gs[1..] == rest;
      assert text[start..] == text[start..next] + text[next..];
    }
  }

  /** The scanner accepts exactly the sequences of glyphs. */
  lemma AcceptsExactly(enc: Encoding, text: seq<Byte>)
    ensures Accepts(enc, text, 0) <==> exists gs :: AllGlyphs(enc, gs) && text == Concat(gs)
  {
    hide Glyph, Scan, Accepts;
    assert text[0..] == text;
    if Accepts(enc, text, 0) {
      var gs := AcceptedIsGlyphs(enc, text, 0);
    }
    forall gs | AllGlyphs(enc, gs) && text == Concat(gs)
      ensures Accepts(enc, text, 0)
    {
      GlyphsAreAccepted(enc, text, 0, gs);
    }
  }

  // ---------------------------------------------------------------------
  // Searching
  // ---------------------------------------------------------------------

  datatype Found = At(pos: nat) | NotFound | BadGlyph

  /** What a search from `start` should find: the least glyph boundary where the
      needle's bytes stand. */
  ghost predicate IsFirstMatch(enc: Encoding, text: seq<Byte>, needle: seq<Byte>, start: nat, r: Found) {
    match r
    case At(p) =>
      && Boundary(enc, text, start, p) && MatchAt(text, needle, p)
      && forall b :: Boundary(enc, text, start, b) && MatchAt(text, needle, b) ==> p <= b
    case NotFound => forall b :: Boundary(enc, text, start, b) ==> !MatchAt(text, needle, b)
    case BadGlyph =>
      && !Accepts(enc, text, start)
      && forall b :: Boundary(enc, text, start, b) ==> !MatchAt(text, needle, b)
  }

  lemma FirstMatchStep(enc: Encoding, text: seq<Byte>, needle: seq<Byte>, here: nat, r: Found)
    requires here < |text| && !MatchAt(text, needle, here)
    requires Scan(enc, text, here).Next?
    requires IsFirstMatch(enc, text, needle, Scan(enc, text, here).pos, r)
    ensures IsFirstMatch(enc, text, needle, here, r)
  {
  }

  lemma FirstMatchHere(enc: Encoding, text: seq<Byte>, needle: seq<Byte>, here: nat)
    requires MatchAt(text, needle, here)
    ensures IsFirstMatch(enc, text, needle, here, At(here))
  {
    forall b | Boundary(enc, text, here, b)
      ensures here <= b
    {
      BoundaryIsAhead(enc, text, here, b);
    }
  }

  lemma NoMatchPastEnd(enc: Encoding, text: seq<Byte>, needle: seq<Byte>, here: nat)
    requires here + |needle| > |text|
    ensures IsFirstMatch(enc, text, needle, here, NotFound)
  {
    forall b | Boundary(enc, text, here, b)
      ensures !MatchAt(text, needle, b)
    {
      BoundaryIsAhead(enc, text, here, b);
    }
  }

  /** What the loop has left to decide, given what lies behind it. */
  ghost predicate Reduces(enc: Encoding, text: seq<Byte>, needle: seq<Byte>, start: nat, here: nat) {
    forall r :: IsFirstMatch(enc, text, needle, here, r) ==> IsFirstMatch(enc, text, needle, start, r)
  }

  /** string_finder. */
  method StringFinder(enc: Encoding, haystack: seq<Byte>, needle: seq<Byte>, start: nat) returns (r: Found)
    ensures IsFirstMatch(enc, haystack, needle, start, r)
  {
    var here := start;
    while here + |needle| <= |haystack|
      invariant Reduces(enc, haystack, needle, start, here)
      decreases |haystack| - here
    {
      if haystack[here..here + |needle|] == needle {
        FirstMatchHere(enc, haystack, needle, here);
        return At(here);
      }
      var step := Scan(enc, haystack, here);
      if step.Malformed? {
        assert IsFirstMatch(enc, haystack, needle, here, BadGlyph);
        return BadGlyph;
      }
      forall r | IsFirstMatch(enc, haystack, needle, step.pos, r)
        ensures IsFirstMatch(enc, haystack, needle, start, r)
      {
        FirstMatchStep(enc, haystack, needle, here, r);
      }
      here := step.pos;
    }
    NoMatchPastEnd(enc, haystack, needle, here);
    r := NotFound;
  }

  /** char_finder is the same search for a single byte. */
  method CharFinder(enc: Encoding, haystack: seq<Byte>, needle: Byte, start: nat) returns (r: Found)
    ensures IsFirstMatch(enc, haystack, [needle], start, r)
  {
    var here := start;
    while here + 1 <= |haystack|
      invariant Reduces(enc, haystack, [needle], start, here)
      decreases |haystack| - here
    {
      if haystack[here] == needle {
        FirstMatchHere(enc, haystack, [needle], here);
        return At(here);
      }
      var step := Scan(enc, haystack, here);
      if step.Malformed? {
        assert IsFirstMatch(enc, haystack, [needle], here, BadGlyph);
        return BadGlyph;
      }
      forall r | IsFirstMatch(enc, haystack, [needle], step.pos, r)
        ensures IsFirstMatch(enc, haystack, [needle], start, r)
      {
        FirstMatchStep(enc, haystack, [needle], here, r);
      }
      here := step.pos;
    }
    NoMatchPastEnd(enc, haystack, [needle], here);
    r := NotFound;
  }

  // ---------------------------------------------------------------------
  // Searching glyphs against searching bytes
  // ---------------------------------------------------------------------

  /** The answer of a search that knows nothing of glyphs. */
  ghost predicate IsFirstByteMatch(text: seq<Byte>, needle: seq<Byte>, start: nat, r: Found) {
    match r
    case At(p) => start <= p && MatchAt(text, needle, p) && forall q :: start <= q < p ==> !MatchAt(text, needle, q)
    case NotFound => forall q :: start <= q ==> !MatchAt(text, needle, q)
    case BadGlyph => false
  }

  /** A needle that starts below the trail bytes is found exactly where a byte
      search finds it. */
  lemma GlyphSearchIsByteSearch(enc: Encoding, text: seq<Byte>, needle: seq<Byte>, start: nat, r: Found)
    requires Accepts(enc, text, start) && IsFirstMatch(enc, text, needle, start, r)
    requires needle != [] && needle[0] < TrailFloor(enc)
    ensures IsFirstByteMatch(text, needle, start, r)
  {
    forall q | start <= q && MatchAt(text, needle, q)
      ensures Boundary(enc, text, start, q)
    {
      assert text[q] == text[q..q + |needle|][0];
      LowByteStartsGlyph(enc, text, start, q);
    }
    if r.At? {
      BoundaryIsAhead(enc, text, start, r.pos);
    }
  }

  /** A two-byte glyph whose second byte is the letter A, where the encoding has one. */
  function LetterInside(enc: Encoding): seq<Byte> {
    [if enc == BIG5 then 0xa1 else 0x81, 0x41]
  }

  /** A needle of ASCII bytes, at least one of them. */
  predicate Ascii(needle: seq<Byte>) {
    needle != [] && forall c :: c in needle ==> c < 0x80
  }

  /** For all ASCII needles the two searches agree exactly in the encodings that keep
      ASCII out of their longer glyphs. */
  lemma AsciiSearchIsByteSearch(enc: Encoding)
    ensures (forall text, needle, start, r ::
              Accepts(enc, text, start) && Ascii(needle) && IsFirstMatch(enc, text, needle, start, r)
              ==> IsFirstByteMatch(text, needle, start, r))
            <==> TrailFloor(enc) == 0x80
  {
    if TrailFloor(enc) == 0x80 {
      forall text, needle, start, r |
        Accepts(enc, text, start) && Ascii(needle) && IsFirstMatch(enc, text, needle, start, r)
        ensures IsFirstByteMatch(text, needle, start, r)
      {
        assert needle[0] in needle;
        GlyphSearchIsByteSearch(enc, text, needle, start, r);
      }
    } else {
      var text := LetterInside(enc);
      var c: Byte := 0x41;
      assert Ascii([c]);
      assert Scan(enc, text, 0) == Next(2);
      assert Accepts(enc, text, 0);
      forall b | Boundary(enc, text, 0, b)
        ensures !MatchAt(text, [c], b)
      {
        assert b == 0 || Boundary(enc, text, 2, b);
      }
      assert IsFirstMatch(enc, text, [c], 0, NotFound);
      assert MatchAt(text, [c], 1);
      assert !IsFirstByteMatch(text, [c], 0, NotFound);
    }
  }

  // ---------------------------------------------------------------------
  // The end of a query
  // ---------------------------------------------------------------------

  /** White space or a semicolon. */
  predicate UselessTrail(c: Byte) {
    c == 0x20 || 0x09 <= c <= 0x0d || c == 0x3b
  }

  /** Where the query ends: only useless characters follow, and what precedes is not
      one. */
  predicate IsQueryEnd(text: seq<Byte>, end: nat) {
    && end <= |text|
    && (forall i :: end <= i < |text| ==> UselessTrail(text[i]))
    && (end > 0 ==> !UselessTrail(text[end - 1]))
  }

  lemma QueryEndIsUnique(text: seq<Byte>, a: nat, b: nat)
    requires IsQueryEnd(text, a) && IsQueryEnd(text, b)
    ensures a == b
  {
  }

  /** A semicolon and the six characters isspace accepts. */
  const USELESS: set<Byte> :=
    {' ' as int, '\t' as int, '\n' as int, '\r' as int, 0x0b, 0x0c, ';' as int}

  /** However much of that follows a query, the query ends before it. */
  lemma TrailIsCut(query: seq<Byte>, trail: seq<Byte>, end: nat)
    requires forall c :: c in trail ==> c in USELESS
    requires query == [] || query[|query| - 1] !in USELESS
    ensures IsQueryEnd(query + trail, end) <==> end == |query|
  {
    var text := query + trail;
    forall i | |query| <= i < |text|
      ensures UselessTrail(text[i])
    {
      assert text[i] in trail;
    }
    if IsQueryEnd(text, end) {
      QueryEndIsUnique(text, end, |query|);
    }
  }

  /** find_query_end: backwards over single-byte text, forwards by glyph otherwise.
      Both ways give the same end in every encoding here, as no trail byte is
      useless; only the forward scan can meet a malformed glyph. */
  method FindQueryEnd(enc: Encoding, query: seq<Byte>) returns (ok: bool, end: nat)
    ensures ok <==> enc == MONOBYTE || Accepts(enc, query, 0)
    ensures ok ==> IsQueryEnd(query, end)
  {
    ok := true;
    if enc == MONOBYTE {
      end := |query|;
      while end > 0 && UselessTrail(query[end - 1])
        invariant end <= |query|
        invariant forall i :: end <= i < |query| ==> UselessTrail(query[i])
      {
        end := end - 1;
      }
    } else {
      end := 0;
      var here := 0;
      while here < |query|
        invariant end <= here <= |query|
        invariant forall i :: end <= i < here ==> UselessTrail(query[i])
        invariant end > 0 ==> !UselessTrail(query[end - 1])
        invariant Accepts(enc, query, 0) <==> Accepts(enc, query, here)
        decreases |query| - here
      {
        var step := Scan(enc, query, here);
        if step.Malformed? {
          return false, end;
        }
        var next := step.pos;
        if next - here > 1 || !UselessTrail(query[here]) {
          end := next;
        }
        here := next;
      }
    }
  }
}
