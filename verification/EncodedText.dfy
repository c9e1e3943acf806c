/** UTF-8 text under libpqxx's glyph scanner (encodings.cxx): what the standard encodes,
    the scanner accepts character by character. */
module EncodedText {
  import opened Common
  import opened Encodings
  import Utf8

  /** Octets as the numbers the scanner compares. */
  function Bytes(s: seq<Octet>): (r: seq<Byte>)
    ensures |r| == |s|
  {
    seq(|s|, i requires 0 <= i < |s| => s[i] as int)
  }

  lemma OctetOrder(a: Octet, b: Octet)
    ensures a <= b <==> a as int <= b as int
  {
  }

  lemma BytesOfSum(a: seq<Octet>, b: seq<Octet>)
    ensures Bytes(a + b) == Bytes(a) + Bytes(b)
  {
  }

  lemma AsNumber(b: Octet, low: Octet, high: Octet)
    requires low <= b <= high
    ensures low as int <= b as int <= high as int
  {
    OctetOrder(low, b);
    OctetOrder(b, high);
  }

  lemma OneOctet(b0: Octet)
    requires b0 <= 0x7F
    ensures Glyph(UTF8, Bytes([b0]))
  {
    AsNumber(b0, 0x00, 0x7F);
  }

  lemma TwoOctets(b0: Octet, b1: Octet)
    requires 0xC2 <= b0 <= 0xDF && Utf8.Continuation(b1)
    ensures Glyph(UTF8, Bytes([b0, b1]))
  {
    AsNumber(b0, 0xC2, 0xDF);
    AsNumber(b1, 0x80, 0xBF);
  }

  lemma ThreeOctets(b0: Octet, b1: Octet, b2: Octet)
    requires 0xE0 <= b0 <= 0xEF && Utf8.Continuation(b1) && Utf8.Continuation(b2)
    ensures Glyph(UTF8, Bytes([b0, b1, b2]))
  {
    AsNumber(b0, 0xE0, 0xEF);
    AsNumber(b1, 0x80, 0xBF);
    AsNumber(b2, 0x80, 0xBF);
  }

  lemma FourOctets(b0: Octet, b1: Octet, b2: Octet, b3: Octet)
    requires 0xF0 <= b0 <= 0xF4 && Utf8.Continuation(b1) && Utf8.Continuation(b2) && Utf8.Continuation(b3)
    ensures Glyph(UTF8, Bytes([b0, b1, b2, b3]))
  {
    AsNumber(b0, 0xF0, 0xF4);
    AsNumber(b1, 0x80, 0xBF);
    AsNumber(b2, 0x80, 0xBF);
    AsNumber(b3, 0x80, 0xBF);
  }

  /** The encoding of every character is one glyph. */
  lemma EncodedIsGlyph(c: Utf8.CodePoint)
    requires Utf8.Scalar(c)
    ensures Glyph(UTF8, Bytes(Utf8.Encode(c)))
  {
    hide Glyph, Bytes, Utf8.Tail, Utf8.Code2, Utf8.Code3, Utf8.Code4, Utf8.Continuation;
    var s := Utf8.Encode(c);
    if c <= 0x7F {
      OneOctet(s[0]);
    } else if c <= 0x7FF {
      Utf8.EncodeTwo(c);
      TwoOctets(s[0], s[1]);
    } else if c <= 0xFFFF {
      Utf8.EncodeThree(c);
      ThreeOctets(s[0], s[1], s[2]);
    } else {
      Utf8.EncodeFour(c);
      FourOctets(s[0], s[1], s[2], s[3]);
    }
  }

  /** In any surroundings, the encoding of a character is stepped over whole. */
  lemma EncodedIsStepped(before: seq<Byte>, c: Utf8.CodePoint, after: seq<Byte>)
    requires Utf8.Scalar(c)
    ensures Scan(UTF8, before + Bytes(Utf8.Encode(c)) + after, |before|) == Next(|before| + |Utf8.Encode(c)|)
  {
    hide Glyph, Bytes, Utf8.Scalar, Utf8.Encode;
    var g := Bytes(Utf8.Encode(c));
    EncodedIsGlyph(c);
    assert (before + g + after)[|before|..|before| + |g|] == g;
    ScanIsExact(UTF8, before + g + after, |before|, |before| + |g|);
  }

  // ---------------------------------------------------------------------
  // Whole texts
  // ---------------------------------------------------------------------

  predicate Text(cs: seq<Utf8.CodePoint>) {
    forall c :: c in cs ==> Utf8.Scalar(c)
  }

  /** A text as libpqxx sees it. */
  function Encoded(cs: seq<Utf8.CodePoint>): seq<Byte>
    requires Text(cs)
  {
    Bytes(Utf8.EncodeAll(cs))
  }

  /** Its characters, one by one. */
  function Characters(cs: seq<Utf8.CodePoint>): (gs: seq<seq<Byte>>)
    requires Text(cs)
    ensures |gs| == |cs|
  {
    seq(|cs|, i requires 0 <= i < |cs| => Bytes(Utf8.Encode(cs[i])))
  }

  lemma {:induction false} CharactersMakeText(cs: seq<Utf8.CodePoint>)
    requires Text(cs)
    ensures AllGlyphs(UTF8, Characters(cs)) && Concat(Characters(cs)) == Encoded(cs)
  {
    hide Glyph, Bytes, Utf8.Scalar, Utf8.Encode;
    if cs != [] {
      EncodedIsGlyph(cs[0]);
      CharactersMakeText(cs[1..]);
      assert Characters(cs)[1..] == Characters(cs[1..]);
      assert Characters(cs) == [Bytes(Utf8.Encode(cs[0]))] + Characters(cs[1..]);
      BytesOfSum(Utf8.Encode(cs[0]), Utf8.EncodeAll(cs[1..]));
    } else {
      assert |Encoded(cs)| == 0;
    }
  }

  /** Every encoded text is accepted, and the scan stops exactly between characters. */
  lemma EncodedIsAccepted(cs: seq<Utf8.CodePoint>)
    requires Text(cs)
    ensures Accepts(UTF8, Encoded(cs), 0)
    ensures forall p :: Boundary(UTF8, Encoded(cs), 0, p) <==> exists k :: 0 <= k <= |cs| && p == |Encoded(cs[..k])|
  {
    hide Glyph, Bytes, Utf8.Scalar, Utf8.Encode, Utf8.EncodeAll, Concat, Accepts, Boundary;
    var text, gs := Encoded(cs), Characters(cs);
    CharactersMakeText(cs);
    assert text[0..] == text;
    GlyphsAreAccepted(UTF8, text, 0, gs);
    forall k | 0 <= k <= |cs|
      ensures Concat(gs[..k]) == Encoded(cs[..k])
    {
      CharactersMakeText(cs[..k]);
      assert gs[..k] == Characters(cs[..k]);
    }
    forall p: nat
      ensures Boundary(UTF8, text, 0, p) <==> IsCut(gs, p)
    {
      BoundariesAreCuts(UTF8, text, 0, gs, p);
    }
  }

  // ---------------------------------------------------------------------
  // Searching text in text
  // ---------------------------------------------------------------------

  predicate Trail(b: Byte) {
    0x80 <= b <= 0xbf
  }

  lemma LaterBytesTrail(text: seq<Byte>, start: nat, p: nat)
    requires start < |text| && Scan(UTF8, text, start).Next? && start < p < Scan(UTF8, text, start).pos
    ensures Trail(text[p])
  {
  }

  /** In accepted text a byte that is not a continuation starts a glyph. */
  lemma {:induction false} LeadStartsGlyph(text: seq<Byte>, start: nat, p: nat)
    requires Accepts(UTF8, text, start) && start <= p < |text| && !Trail(text[p])
    ensures Boundary(UTF8, text, start, p)
    decreases |text| - start
  {
    hide Scan, Trail;
    if start < p {
      var next := Scan(UTF8, text, start).pos;
      if p < next {
        LaterBytesTrail(text, start, p);
      }
      LeadStartsGlyph(text, next, p);
    }
  }

  lemma FirstByteLeads(cs: seq<Utf8.CodePoint>)
    requires Text(cs) && cs != []
    ensures Encoded(cs) != [] && !Trail(Encoded(cs)[0])
  {
    CharactersMakeText(cs);
    assert Characters(cs)[0] == Concat(Characters(cs))[..|Characters(cs)[0]|];
    assert Glyph(UTF8, Characters(cs)[0]);
  }

  /** Any text in any text: the search by glyphs never meets a bad one, and finds the
      needle exactly where a search by bytes finds it. */
  lemma TextSearchIsByteSearch(cs: seq<Utf8.CodePoint>, needle: seq<Utf8.CodePoint>, r: Found)
    requires Text(cs) && Text(needle) && needle != []
    requires IsFirstMatch(UTF8, Encoded(cs), Encoded(needle), 0, r)
    ensures IsFirstByteMatch(Encoded(cs), Encoded(needle), 0, r)
  {
    hide Encoded, Trail, Scan, Accepts, Boundary;
    var text, sought := Encoded(cs), Encoded(needle);
    EncodedIsAccepted(cs);
    FirstByteLeads(needle);
    forall q: nat | MatchAt(text, sought, q)
      ensures Boundary(UTF8, text, 0, q)
    {
      assert text[q] == text[q..q + |sought|][0];
      LeadStartsGlyph(text, 0, q);
    }
  }
}
