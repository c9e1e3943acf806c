/** The streaming UTF-8 validator of websocketpp (utf8_validator.hpp), a table-driven
    automaton, against the encoding of RFC 3629. */
module Utf8 {
  import opened Common

  type CodePoint = bv32

  // ---------------------------------------------------------------------
  // The standard
  // ---------------------------------------------------------------------

  /** Everything up to U+10FFFF but the surrogates (section 3 of RFC 3629). */
  predicate Scalar(c: CodePoint) {
    c <= 0x10FFFF && !(0xD800 <= c <= 0xDFFF)
  }

  /** A continuation byte with the six lowest bits of c. */
  function Tail(c: CodePoint): Octet {
    ((c & 0x3F) | 0x80) as Octet
  }

  /** The one encoding of a character: the shortest that holds its bits. */
  function Encode(c: CodePoint): (s: seq<Octet>)
    requires Scalar(c)
    ensures 1 <= |s| <= 4
  {
    if c <= 0x7F then [c as Octet]
    else if c <= 0x7FF then [((c >> 6) | 0xC0) as Octet, Tail(c)]
    else if c <= 0xFFFF then [((c >> 12) | 0xE0) as Octet, Tail(c >> 6), Tail(c)]
    else [((c >> 18) | 0xF0) as Octet, Tail(c >> 12), Tail(c >> 6), Tail(c)]
  }

  function EncodeAll(cs: seq<CodePoint>): seq<Octet>
    requires forall c :: c in cs ==> Scalar(c)
  {
    if cs == [] then [] else Encode(cs[0]) + EncodeAll(cs[1..])
  }

  // ---------------------------------------------------------------------
  // The automaton
  // ---------------------------------------------------------------------

  const ACCEPT := 0
  const REJECT := 1

  type State = s: nat | s <= 8

  /** First part of the table: the class of a byte. */
  function ByteClass(b: Octet): nat {
    if b <= 0x7F then 0
    else if b <= 0x8F then 1
    else if b <= 0x9F then 9
    else if b <= 0xBF then 7
    else if b <= 0xC1 then 8
    else if b <= 0xDF then 2
    else if b == 0xE0 then 10
    else if b <= 0xEC then 3
    else if b == 0xED then 4
    else if b <= 0xEF then 3
    else if b == 0xF0 then 11
    else if b <= 0xF3 then 6
    else if b == 0xF4 then 5
    else 8
  }

  /** Second part of the table: the next state; entries not listed reject. */
  function Transition(s: State, class_: nat): State {
    match s
    case 0 =>
      (match class_
       case 0 => 0
       case 2 => 2
       case 3 => 3
       case 4 => 5
       case 5 => 8
       case 6 => 7
       case 10 => 4
       case 11 => 6
       case _ => 1)
    case 1 => 1
    case 2 => if class_ in {1, 7, 9} then 0 else 1
    case 3 => if class_ in {1, 7, 9} then 2 else 1
    case 4 => if class_ == 7 then 2 else 1
    case 5 => if class_ in {1, 9} then 2 else 1
    case 6 => if class_ in {7, 9} then 3 else 1
    case 7 => if class_ in {1, 7, 9} then 3 else 1
    case 8 => if class_ == 1 then 3 else 1
  }

  function NextState(s: State, b: Octet): State {
    Transition(s, ByteClass(b))
  }

  /** 0xff shifted right by the class. */
  function LeadMask(class_: nat): CodePoint {
    match class_
    case 0 => 0xFF
    case 1 => 0x7F
    case 2 => 0x3F
    case 3 => 0x1F
    case 4 => 0x0F
    case 5 => 0x07
    case 6 => 0x03
    case 7 => 0x01
    case _ => 0
  }

  function NextCode(s: State, c: CodePoint, b: Octet): CodePoint {
    if s != ACCEPT then ((b as CodePoint) & 0x3F) | (c << 6)
    else LeadMask(ByteClass(b)) & (b as CodePoint)
  }

  /** The state and code point after a run of bytes, and the code points held
      whenever the automaton accepted on the way. */
  datatype Run = Run(state: State, code: CodePoint, accepted: seq<CodePoint>)

  function Step(r: Run, b: Octet): Run {
    var s, c := NextState(r.state, b), NextCode(r.state, r.code, b);
    Run(s, c, if s == ACCEPT then r.accepted + [c] else r.accepted)
  }

  function Feed(r: Run, bytes: seq<Octet>): Run
    decreases |bytes|
  {
    if bytes == [] then r else Feed(Step(r, bytes[0]), bytes[1..])
  }

  const START := Run(ACCEPT, 0, [])

  lemma {:induction false} FeedInChunks(r: Run, a: seq<Octet>, b: seq<Octet>)
    ensures Feed(Feed(r, a), b) == Feed(r, a + b)
    decreases |a|
  {
    if a == [] {
      assert a + b == b;
    } else {
      FeedInChunks(Step(r, a[0]), a[1..], b);
      assert (a + b)[1..] == a[1..] + b;
    }
  }

  lemma {:induction false} RejectAbsorbs(r: Run, bytes: seq<Octet>)
    requires r.state == REJECT
    ensures Feed(r, bytes).state == REJECT
    decreases |bytes|
  {
    if bytes != [] {
      RejectAbsorbs(Step(r, bytes[0]), bytes[1..]);
    }
  }

  // ---------------------------------------------------------------------
  // Bits
  // ---------------------------------------------------------------------

  /** The payload bits of a first byte. */
  function Lead(b: Octet, mask: CodePoint): CodePoint {
    (b as CodePoint) & mask
  }

  /** A code with the payload bits of a continuation byte behind it. */
  function Append(c: CodePoint, b: Octet): CodePoint {
    ((b as CodePoint) & 0x3F) | (c << 6)
  }

  function Code2(b0: Octet, b1: Octet): CodePoint {
    Append(Lead(b0, 0x1F), b1)
  }

  function Code3(b0: Octet, b1: Octet, b2: Octet): CodePoint {
    Append(Append(Lead(b0, 0x0F), b1), b2)
  }

  function Code4(b0: Octet, b1: Octet, b2: Octet, b3: Octet): CodePoint {
    Append(Append(Append(Lead(b0, 0x07), b1), b2), b3)
  }

  predicate Continuation(b: Octet) {
    0x80 <= b <= 0xBF
  }

  lemma TwoBytes(b0: Octet, b1: Octet)
    requires 0xC2 <= b0 <= 0xDF && Continuation(b1)
    ensures 0x80 <= Code2(b0, b1) <= 0x7FF
    ensures ((Code2(b0, b1) >> 6) | 0xC0) as Octet == b0 && Tail(Code2(b0, b1)) == b1
  {
  }

  lemma ThreeBytes(b0: Octet, b1: Octet, b2: Octet)
    requires 0xE0 <= b0 <= 0xEF && Continuation(b1) && Continuation(b2)
    requires (b0 == 0xE0 ==> b1 >= 0xA0) && (b0 == 0xED ==> b1 <= 0x9F)
    ensures var c := Code3(b0, b1, b2);
            && 0x800 <= c <= 0xFFFF && !(0xD800 <= c <= 0xDFFF)
            && ((c >> 12) | 0xE0) as Octet == b0 && Tail(c >> 6) == b1 && Tail(c) == b2
  {
  }

  lemma FourBytes(b0: Octet, b1: Octet, b2: Octet, b3: Octet)
    requires 0xF0 <= b0 <= 0xF4 && Continuation(b1) && Continuation(b2) && Continuation(b3)
    requires (b0 == 0xF0 ==> b1 >= 0x90) && (b0 == 0xF4 ==> b1 <= 0x8F)
    ensures var c := Code4(b0, b1, b2, b3);
            && 0x10000 <= c <= 0x10FFFF
            && ((c >> 18) | 0xF0) as Octet == b0 && Tail(c >> 12) == b1 && Tail(c >> 6) == b2 && Tail(c) == b3
  {
    FourBits(b0, b1, b2, b3, Code4(b0, b1, b2, b3));
  }

  lemma FourBits(b0: Octet, b1: Octet, b2: Octet, b3: Octet, c: CodePoint)
    requires 0xF0 <= b0 <= 0xF4 && Continuation(b1) && Continuation(b2) && Continuation(b3)
    requires (b0 == 0xF0 ==> b1 >= 0x90) && (b0 == 0xF4 ==> b1 <= 0x8F)
    requires c == ((b3 as CodePoint) & 0x3F)
      | ((((b2 as CodePoint) & 0x3F) | ((((b1 as CodePoint) & 0x3F) | (((b0 as CodePoint) & 0x07) << 6)) << 6)) << 6)
    ensures 0x10000 <= c <= 0x10FFFF
    ensures ((c >> 18) | 0xF0) as Octet == b0 && Tail(c >> 12) == b1 && Tail(c >> 6) == b2 && Tail(c) == b3
  {
  }

  lemma EncodeTwo(c: CodePoint)
    requires 0x80 <= c <= 0x7FF
    ensures var b0, b1 := ((c >> 6) | 0xC0) as Octet, Tail(c);
            0xC2 <= b0 <= 0xDF && Continuation(b1) && Code2(b0, b1) == c
  {
  }

  lemma EncodeThree(c: CodePoint)
    requires 0x800 <= c <= 0xFFFF && !(0xD800 <= c <= 0xDFFF)
    ensures var b0, b1, b2 := ((c >> 12) | 0xE0) as Octet, Tail(c >> 6), Tail(c);
            && 0xE0 <= b0 <= 0xEF && Continuation(b1) && Continuation(b2) && Code3(b0, b1, b2) == c
            && (b0 == 0xE0 ==> b1 >= 0xA0) && (b0 == 0xED ==> b1 <= 0x9F)
  {
  }

  lemma EncodeFour(c: CodePoint)
    requires 0x10000 <= c <= 0x10FFFF
    ensures var b0, b1, b2, b3 := ((c >> 18) | 0xF0) as Octet, Tail(c >> 12), Tail(c >> 6), Tail(c);
            && 0xF0 <= b0 <= 0xF4 && Continuation(b1) && Continuation(b2) && Continuation(b3)
            && Code4(b0, b1, b2, b3) == c
            && (b0 == 0xF0 ==> b1 >= 0x90) && (b0 == 0xF4 ==> b1 <= 0x8F)
  {
  }

  // ---------------------------------------------------------------------
  // The automaton on one character
  // ---------------------------------------------------------------------

  lemma FeedOne(r: Run, b0: Octet)
    ensures Feed(r, [b0]) == Step(r, b0)
  {
    assert Feed(r, [b0]) == Feed(Step(r, b0), [b0][1..]);
  }

  lemma FeedTwo(r: Run, b0: Octet, b1: Octet)
    ensures Feed(r, [b0, b1]) == Step(Step(r, b0), b1)
  {
    assert [b0, b1][1..] == [b1];
    FeedOne(Step(r, b0), b1);
  }

  lemma FeedThree(r: Run, b0: Octet, b1: Octet, b2: Octet)
    ensures Feed(r, [b0, b1, b2]) == Step(Step(Step(r, b0), b1), b2)
  {
    assert [b0, b1, b2][1..] == [b1, b2];
    FeedTwo(Step(r, b0), b1, b2);
  }

  lemma FeedFour(r: Run, b0: Octet, b1: Octet, b2: Octet, b3: Octet)
    ensures Feed(r, [b0, b1, b2, b3]) == Step(Step(Step(Step(r, b0), b1), b2), b3)
  {
    assert [b0, b1, b2, b3][1..] == [b1, b2, b3];
    FeedThree(Step(r, b0), b1, b2, b3);
  }

  /** The first byte decides the state and the bits kept. */
  lemma LeadByte(c: CodePoint, b: Octet)
    ensures NextState(ACCEPT, b) ==
            if b <= 0x7F then 0
            else if b <= 0xC1 || b >= 0xF5 then REJECT
            else if b <= 0xDF then 2
            else if b == 0xE0 then 4
            else if b == 0xED then 5
            else if b <= 0xEF then 3
            else if b == 0xF0 then 6
            else if b <= 0xF3 then 7
            else 8
    ensures 0xC2 <= b <= 0xDF ==> NextCode(ACCEPT, c, b) == Lead(b, 0x1F)
    ensures 0xE0 <= b <= 0xEF ==> NextCode(ACCEPT, c, b) == Lead(b, 0x0F)
    ensures 0xF0 <= b <= 0xF4 ==> NextCode(ACCEPT, c, b) == Lead(b, 0x07)
  {
  }

  /** Each later state takes the continuation bytes its first byte leaves room for. */
  lemma LaterByte(s: State, b: Octet)
    requires s >= 2
    ensures NextState(s, b) ==
            if s == 2 && Continuation(b) then 0
            else if s == 3 && Continuation(b) then 2
            else if s == 4 && Continuation(b) && b >= 0xA0 then 2
            else if s == 5 && Continuation(b) && b <= 0x9F then 2
            else if s == 6 && Continuation(b) && b >= 0x90 then 3
            else if s == 7 && Continuation(b) then 3
            else if s == 8 && Continuation(b) && b <= 0x8F then 3
            else REJECT
  {
  }

  lemma LaterCode(s: State, c: CodePoint, b: Octet)
    requires s >= 1
    ensures NextCode(s, c, b) == Append(c, b)
  {
  }

  lemma StepsTwo(r: Run, b0: Octet, b1: Octet)
    requires r.state == ACCEPT && 0xC2 <= b0 <= 0xDF
    ensures Step(r, b0).state == 2
    ensures var e := Step(Step(r, b0), b1);
            if Continuation(b1) then e == Run(ACCEPT, Code2(b0, b1), r.accepted + [Code2(b0, b1)])
            else e.state == REJECT
  {
    hide NextState, NextCode, Continuation, Append, Lead;
    LeadByte(r.code, b0);
    LaterByte(2, b1);
    LaterCode(2, Step(r, b0).code, b1);
  }

  lemma StepsThree(r: Run, b0: Octet, b1: Octet, b2: Octet)
    requires r.state == ACCEPT && 0xE0 <= b0 <= 0xEF
    ensures Step(r, b0).state in {3, 4, 5}
    ensures var m, e := Step(Step(r, b0), b1), Step(Step(Step(r, b0), b1), b2);
            && m.state == (if Continuation(b1) && (b0 == 0xE0 ==> b1 >= 0xA0) && (b0 == 0xED ==> b1 <= 0x9F) then 2
                           else REJECT)
            && if m.state == 2 && Continuation(b2)
               then e == Run(ACCEPT, Code3(b0, b1, b2), r.accepted + [Code3(b0, b1, b2)])
               else e.state == REJECT
  {
    hide NextState, NextCode, Continuation, Append, Lead;
    var l := Step(r, b0);
    LeadByte(r.code, b0);
    LaterByte(l.state, b1);
    LaterCode(l.state, l.code, b1);
    var m := Step(l, b1);
    LastByte(m, b2);
  }

  /** The last byte of a sequence, or any byte after a rejection. */
  lemma LastByte(r: Run, b: Octet)
    requires r.state == 2 || r.state == REJECT
    ensures var e := Step(r, b);
            if r.state == 2 && Continuation(b) then
              e.state == ACCEPT && e.code == Append(r.code, b) && e.accepted == r.accepted + [e.code]
            else e.state == REJECT
  {
    hide NextState, NextCode, Continuation, Append, Lead;
    if r.state == 2 {
      LaterByte(2, b);
      LaterCode(2, r.code, b);
    } else {
      RejectStays(r, b);
    }
  }

  lemma RejectStays(r: Run, b: Octet)
    ensures r.state == REJECT ==> Step(r, b).state == REJECT
  {
  }

  lemma StepsFour(r: Run, b0: Octet, b1: Octet, b2: Octet, b3: Octet)
    requires r.state == ACCEPT && 0xF0 <= b0 <= 0xF4
    ensures Step(r, b0).state in {6, 7, 8}
    ensures var m := Step(Step(r, b0), b1);
            var n := Step(m, b2);
            var e := Step(n, b3);
            && m.state == (if Continuation(b1) && (b0 == 0xF0 ==> b1 >= 0x90) && (b0 == 0xF4 ==> b1 <= 0x8F) then 3
                           else REJECT)
            && n.state == (if m.state == 3 && Continuation(b2) then 2 else REJECT)
            && if n.state == 2 && Continuation(b3)
               then e == Run(ACCEPT, Code4(b0, b1, b2, b3), r.accepted + [Code4(b0, b1, b2, b3)])
               else e.state == REJECT
  {
    hide NextState, NextCode, Continuation, Append, Lead;
    var l := Step(r, b0);
    LeadByte(r.code, b0);
    LaterByte(l.state, b1);
    LaterCode(l.state, l.code, b1);
    var m := Step(l, b1);
    LaterByte(3, b2);
    LaterCode(m.state, m.code, b2);
    RejectStays(m, b2);
    var n := Step(m, b2);
    LaterByte(2, b3);
    LaterCode(n.state, n.code, b3);
    RejectStays(n, b3);
  }

  /** The encoding of a character is accepted, at its last byte only, and leaves its
      code point. */
  lemma EncodeIsAccepted(c: CodePoint, r: Run)
    requires r.state == ACCEPT && Scalar(c)
    ensures Feed(r, Encode(c)) == Run(ACCEPT, c, r.accepted + [c])
  {
    hide Step, Code2, Code3, Code4, Tail, Continuation;
    var s := Encode(c);
    if c <= 0x7F {
      FeedOne(r, s[0]);
      OneByte(r, s[0]);
    } else if c <= 0x7FF {
      EncodeTwo(c);
      FeedTwo(r, s[0], s[1]);
      StepsTwo(r, s[0], s[1]);
    } else if c <= 0xFFFF {
      EncodeThree(c);
      FeedThree(r, s[0], s[1], s[2]);
      StepsThree(r, s[0], s[1], s[2]);
    } else {
      EncodeFour(c);
      FeedFour(r, s[0], s[1], s[2], s[3]);
      StepsFour(r, s[0], s[1], s[2], s[3]);
    }
  }

  lemma OneByte(r: Run, b0: Octet)
    requires r.state == ACCEPT && b0 <= 0x7F
    ensures Step(r, b0) == Run(ACCEPT, b0 as CodePoint, r.accepted + [b0 as CodePoint])
    ensures Scalar(b0 as CodePoint) && Encode(b0 as CodePoint) == [b0]
  {
  }

  // ---------------------------------------------------------------------
  // Whole texts
  // ---------------------------------------------------------------------

  /** Every encoded text is accepted, and the code points held at the accepting
      states are its characters. */
  lemma {:induction false} EncodedIsAccepted(cs: seq<CodePoint>, r: Run)
    requires r.state == ACCEPT && forall c :: c in cs ==> Scalar(c)
    ensures var e := Feed(r, EncodeAll(cs)); e.state == ACCEPT && e.accepted == r.accepted + cs
    decreases |cs|
  {
    hide Encode, Scalar, Step;
    if cs != [] {
      hide Feed;
      var next := Run(ACCEPT, cs[0], r.accepted + [cs[0]]);
      EncodeIsAccepted(cs[0], r);
      EncodedIsAccepted(cs[1..], next);
      FeedInChunks(r, Encode(cs[0]), EncodeAll(cs[1..]));
      assert r.accepted + [cs[0]] + cs[1..] == r.accepted + cs;
    }
  }

  /** Text that starts in an accepting state and ends in one starts with a character. */
  lemma FirstCharacter(s: seq<Octet>, r: Run) returns (c: CodePoint)
    requires r.state == ACCEPT && s != [] && Feed(r, s).state == ACCEPT
    ensures Scalar(c) && |Encode(c)| <= |s| && s[..|Encode(c)|] == Encode(c)
  {
    hide Step, Code2, Code3, Code4, Continuation;
    var b0 := s[0];
    if b0 <= 0x7F {
      OneByte(r, b0);
      c := b0 as CodePoint;
    } else if b0 <= 0xC1 || b0 >= 0xF5 {
      BadLead(r, b0);
      RejectAbsorbs(Step(r, b0), s[1..]);
    } else if b0 <= 0xDF {
      c := FirstOfTwo(s, r);
    } else if b0 <= 0xEF {
      c := FirstOfThree(s, r);
    } else {
      c := FirstOfFour(s, r);
    }
  }

  lemma BadLead(r: Run, b0: Octet)
    requires r.state == ACCEPT && (0x80 <= b0 <= 0xC1 || b0 >= 0xF5)
    ensures Step(r, b0).state == REJECT
  {
  }

  /** The run up to some byte of an accepted text has not been rejected. */
  lemma NotRejected(r: Run, s: seq<Octet>, n: nat)
    requires n <= |s| && Feed(r, s).state == ACCEPT
    ensures Feed(r, s[..n]).state != REJECT
    ensures n == |s| ==> Feed(r, s[..n]).state == ACCEPT
  {
    FeedInChunks(r, s[..n], s[n..]);
    assert s[..n] + s[n..] == s;
    if Feed(r, s[..n]).state == REJECT {
      RejectAbsorbs(Feed(r, s[..n]), s[n..]);
    }
  }

  lemma FirstOfTwo(s: seq<Octet>, r: Run) returns (c: CodePoint)
    requires r.state == ACCEPT && s != [] && Feed(r, s).state == ACCEPT && 0xC2 <= s[0] <= 0xDF
    ensures Scalar(c) && |Encode(c)| <= |s| && s[..|Encode(c)|] == Encode(c)
  {
    hide Step, Code2, Continuation;
    NotRejected(r, s, 1);
    assert s[..1] == [s[0]];
    FeedOne(r, s[0]);
    StepsTwo(r, s[0], 0);
    assert |s| >= 2;
    NotRejected(r, s, 2);
    assert s[..2] == [s[0], s[1]];
    FeedTwo(r, s[0], s[1]);
    StepsTwo(r, s[0], s[1]);
    TwoBytes(s[0], s[1]);
    c := Code2(s[0], s[1]);
  }

  lemma FirstOfThree(s: seq<Octet>, r: Run) returns (c: CodePoint)
    requires r.state == ACCEPT && s != [] && Feed(r, s).state == ACCEPT && 0xE0 <= s[0] <= 0xEF
    ensures Scalar(c) && |Encode(c)| <= |s| && s[..|Encode(c)|] == Encode(c)
  {
    hide Step, Code3, Continuation, Encode, Scalar;
    NotRejected(r, s, 1);
    assert s[..1] == [s[0]];
    FeedOne(r, s[0]);
    StepsThree(r, s[0], 0, 0);
    NotRejected(r, s, 2);
    assert s[..2] == [s[0], s[1]];
    FeedTwo(r, s[0], s[1]);
    StepsThree(r, s[0], s[1], 0);
    NotRejected(r, s, 3);
    assert s[..3] == [s[0], s[1], s[2]];
    FeedThree(r, s[0], s[1], s[2]);
    StepsThree(r, s[0], s[1], s[2]);
    EncodesThree(s[0], s[1], s[2]);
    c := Code3(s[0], s[1], s[2]);
  }

  lemma FourLongEnough(s: seq<Octet>, r: Run)
    requires r.state == ACCEPT && s != [] && Feed(r, s).state == ACCEPT && 0xF0 <= s[0] <= 0xF4
    ensures |s| >= 4
  {
    hide Step, Code4, Continuation;
    NotRejected(r, s, 1);
    assert s[..1] == [s[0]];
    FeedOne(r, s[0]);
    StepsFour(r, s[0], 0, 0, 0);
    NotRejected(r, s, 2);
    assert s[..2] == [s[0], s[1]];
    FeedTwo(r, s[0], s[1]);
    StepsFour(r, s[0], s[1], 0, 0);
    NotRejected(r, s, 3);
    assert s[..3] == [s[0], s[1], s[2]];
    FeedThree(r, s[0], s[1], s[2]);
    StepsFour(r, s[0], s[1], s[2], 0);
  }

  lemma FirstOfFour(s: seq<Octet>, r: Run) returns (c: CodePoint)
    requires r.state == ACCEPT && s != [] && Feed(r, s).state == ACCEPT && 0xF0 <= s[0] <= 0xF4
    ensures Scalar(c) && |Encode(c)| <= |s| && s[..|Encode(c)|] == Encode(c)
  {
    hide Step, Code4, Continuation, Feed, Encode, Scalar;
    FourLongEnough(s, r);
    var b0, b1, b2, b3 := s[0], s[1], s[2], s[3];
    NotRejected(r, s, 4);
    assert s[..4] == [b0, b1, b2, b3];
    FeedFour(r, b0, b1, b2, b3);
    StepsFour(r, b0, b1, b2, b3);
    EncodesFour(b0, b1, b2, b3);
    c := Code4(b0, b1, b2, b3);
  }

  lemma EncodesFour(b0: Octet, b1: Octet, b2: Octet, b3: Octet)
    requires 0xF0 <= b0 <= 0xF4 && Continuation(b1) && Continuation(b2) && Continuation(b3)
    requires (b0 == 0xF0 ==> b1 >= 0x90) && (b0 == 0xF4 ==> b1 <= 0x8F)
    ensures Scalar(Code4(b0, b1, b2, b3)) && Encode(Code4(b0, b1, b2, b3)) == [b0, b1, b2, b3]
  {
    hide Code4, Tail;
    FourBytes(b0, b1, b2, b3);
  }

  lemma EncodesThree(b0: Octet, b1: Octet, b2: Octet)
    requires 0xE0 <= b0 <= 0xEF && Continuation(b1) && Continuation(b2)
    requires (b0 == 0xE0 ==> b1 >= 0xA0) && (b0 == 0xED ==> b1 <= 0x9F)
    ensures Scalar(Code3(b0, b1, b2)) && Encode(Code3(b0, b1, b2)) == [b0, b1, b2]
  {
    hide Code3, Tail;
    ThreeBytes(b0, b1, b2);
  }

  /** Every accepted text is the encoding of the code points held on the way. */
  lemma {:induction false} AcceptedIsEncoded(s: seq<Octet>, r: Run) returns (cs: seq<CodePoint>)
    requires r.state == ACCEPT && Feed(r, s).state == ACCEPT
    ensures forall c :: c in cs ==> Scalar(c)
    ensures s == EncodeAll(cs) && Feed(r, s).accepted == r.accepted + cs
    decreases |s|
  {
    hide Encode, Scalar, Step;
    if s == [] {
      cs := [];
    } else {
      var c := FirstCharacter(s, r);
      var n := |Encode(c)|;
      EncodeIsAccepted(c, r);
      FeedInChunks(r, s[..n], s[n..]);
      assert s[..n] + s[n..] == s;
      var rest := AcceptedIsEncoded(s[n..], Feed(r, s[..n]));
      cs := [c] + rest;
      assert cs[1..] == rest;
    }
  }

  ghost predicate IsEncoding(s: seq<Octet>, cs: seq<CodePoint>) {
    (forall c :: c in cs ==> Scalar(c)) && s == EncodeAll(cs)
  }

  /** Acceptance is well-formedness, and the code points held are the characters. */
  lemma AcceptedExactly(s: seq<Octet>)
    ensures Feed(START, s).state == ACCEPT <==> exists cs :: IsEncoding(s, cs)
    ensures forall cs :: IsEncoding(s, cs) ==> Feed(START, s).accepted == cs
  {
    if Feed(START, s).state == ACCEPT {
      var cs := AcceptedIsEncoded(s, START);
      assert IsEncoding(s, cs);
    }
    forall cs | IsEncoding(s, cs)
      ensures Feed(START, s).state == ACCEPT && Feed(START, s).accepted == cs
    {
      EncodedIsAccepted(cs, START);
      assert [] + cs == cs;
    }
  }

  // ---------------------------------------------------------------------
  // The validator
  // ---------------------------------------------------------------------

  class Validator {
    var state: State
    var code: CodePoint
    ghost var Accepted: seq<CodePoint>

    ghost function Reached(): Run
      reads this
    {
      Run(state, code, Accepted)
    }

    constructor ()
      ensures Reached() == START
    {
      state, code, Accepted := ACCEPT, 0, [];
    }

    method Consume(b: Octet) returns (ok: bool)
      modifies this
      ensures Reached() == Step(old(Reached()), b) && ok == (state != REJECT)
    {
      var s, c := NextState(state, b), NextCode(state, code, b);
      Accepted := if s == ACCEPT then Accepted + [c] else Accepted;
      state, code := s, c;
      ok := state != REJECT;
    }

    /** Feeds a chunk, giving up at the first rejection: the state is the same as if
        all of it had been fed. */
    method Decode(bytes: seq<Octet>) returns (ok: bool)
      modifies this
      ensures state == Feed(old(Reached()), bytes).state
      ensures ok <==> bytes == [] || state != REJECT
      ensures ok ==> Reached() == Feed(old(Reached()), bytes)
    {
      var i := 0;
      assert bytes[0..] == bytes;
      while i < |bytes|
        invariant i <= |bytes| && (i > 0 ==> state != REJECT)
        invariant Feed(Reached(), bytes[i..]) == Feed(old(Reached()), bytes)
      {
        assert bytes[i..][1..] == bytes[i + 1..];
        var good := Consume(bytes[i]);
        i := i + 1;
        if !good {
          RejectAbsorbs(Reached(), bytes[i..]);
          return false;
        }
      }
      ok := true;
    }

    method Complete() returns (complete: bool)
      ensures complete == (state == ACCEPT)
    {
      complete := state == ACCEPT;
    }

    method Reset()
      modifies this
      ensures Reached() == START
    {
      state, code, Accepted := ACCEPT, 0, [];
    }
  }

  /** validate: true exactly for concatenations of well-formed sequences. */
  method Validate(s: seq<Octet>) returns (valid: bool)
    ensures valid <==> exists cs :: IsEncoding(s, cs)
  {
    AcceptedExactly(s);
    var v := new Validator();
    var ok := v.Decode(s);
    if !ok {
      return false;
    }
    valid := v.Complete();
  }
}
