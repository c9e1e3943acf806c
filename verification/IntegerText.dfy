/** Integers to text and back (strconv.cxx), with the overflow checks of fixed-width
    types. */
module IntegerText {
  import opened Common

  datatype Width = W16 | W32 | W64

  datatype IntType = IntType(signed: bool, width: Width) {
    function Max(): int {
      match width
      case W16 => if signed then 0x7FFF else 0xFFFF
      case W32 => if signed then 0x7FFF_FFFF else 0xFFFF_FFFF
      case W64 => if signed then 0x7FFF_FFFF_FFFF_FFFF else 0xFFFF_FFFF_FFFF_FFFF
    }

    function Min(): int {
      if signed then -Max() - 1 else 0
    }

    predicate Fits(v: int) {
      Min() <= v <= Max()
    }

    /** Decimal digits any value of the type can be sure to keep. */
    function Digits10(): nat {
      match width
      case W16 => 4
      case W32 => 9
      case W64 => if signed then 18 else 19
    }

    /** A sign if there can be one, the digits, one more, and a terminating zero. */
    function SizeBuffer(): nat {
      (if signed then 1 else 0) + Digits10() + 1 + 1
    }
  }

  // ---------------------------------------------------------------------
  // Decimal notation
  // ---------------------------------------------------------------------

  predicate IsDigit(c: char) {
    '0' <= c <= '9'
  }

  predicate AllDigits(s: string) {
    forall i :: 0 <= i < |s| ==> IsDigit(s[i])
  }

  /** number_to_digit. */
  function DigitChar(d: nat): (c: char)
    requires d <= 9
    ensures IsDigit(c) && DigitNumber(c) == d
  {
    (d + '0' as int) as char
  }

  /** digit_to_number. */
  function DigitNumber(c: char): (d: int)
    requires IsDigit(c)
    ensures 0 <= d <= 9
  {
    c as int - '0' as int
  }

  /** The shortest decimal notation of a number. */
  function Digits(n: nat): (s: string)
    ensures s != [] && AllDigits(s)
  {
    if n < 10 then [DigitChar(n)] else Digits(n / 10) + [DigitChar(n % 10)]
  }

  function DigitsValue(s: string): (n: int)
    requires AllDigits(s)
    ensures n >= 0
  {
    if s == [] then 0 else 10 * DigitsValue(s[..|s| - 1]) + DigitNumber(s[|s| - 1])
  }

  lemma {:induction false} DigitsValueOfDigits(n: nat)
    ensures DigitsValue(Digits(n)) == n
  {
    if n >= 10 {
      DigitsValueOfDigits(n / 10);
      assert Digits(n)[..|Digits(n)| - 1] == Digits(n / 10);
    }
  }

  function TenTo(k: nat): nat {
    if k == 0 then 1 else 10 * TenTo(k - 1)
  }

  lemma {:induction false} DigitsLength(n: nat, k: nat)
    requires n < TenTo(k) && k > 0
    ensures |Digits(n)| <= k
  {
    if n >= 10 {
      DigitsLength(n / 10, k - 1);
    }
  }

  /** More digits never make a smaller number. */
  lemma {:induction false} PrefixIsSmaller(s: string, k: nat)
    requires AllDigits(s) && k <= |s|
    ensures DigitsValue(s[..k]) <= DigitsValue(s)
    decreases |s|
  {
    if k < |s| {
      PrefixIsSmaller(s[..|s| - 1], k);
      assert s[..|s| - 1][..k] == s[..k];
    } else {
      assert s[..k] == s;
    }
  }

  // ---------------------------------------------------------------------
  // To text
  // ---------------------------------------------------------------------

  /** The text of a value. */
  function Text(v: int): string {
    if v >= 0 then Digits(v) else ['-'] + Digits(-v)
  }

  lemma LastDigit(v: nat)
    ensures Digits(v) == (if v / 10 > 0 then Digits(v / 10) else []) + [DigitChar(v % 10)]
  {
  }

  lemma Regroup(left: string, d: char, tail: string)
    ensures left + [d] + tail == left + ([d] + tail)
  {
  }

  /** Writes a nonnegative number backwards from `end`, behind a terminating zero. */
  method NonnegToBuf(buf: array<char>, end: nat, value: nat) returns (pos: nat)
    requires |Digits(value)| + 1 <= end <= buf.Length
    modifies buf
    ensures pos == end - 1 - |Digits(value)|
    ensures buf[pos..end] == Digits(value) + ['\0']
    ensures forall k :: 0 <= k < buf.Length && !(pos <= k < end) ==> buf[k] == old(buf[k])
  {
    hide Digits;
    pos := end - 1;
    buf[pos] := '\0';
    var v := value;
    var more := true;
    // The digits that are still to be written.
    ghost var left := Digits(v);
    while more
      invariant pos < end && left == (if more then Digits(v) else [])
      invariant pos == end - 1 - |Digits(value)| + |left|
      invariant left + buf[pos..end] == Digits(value) + ['\0']
      invariant forall k :: 0 <= k < buf.Length && !(pos <= k < end) ==> buf[k] == old(buf[k])
      decreases more, v
    {
      ghost var tail := buf[pos..end];
      LastDigit(v);
      left := if v / 10 > 0 then Digits(v / 10) else [];
      Regroup(left, DigitChar(v % 10), tail);
      pos := pos - 1;
      buf[pos] := DigitChar(v % 10);
      assert buf[pos..end] == [DigitChar(v % 10)] + tail;
      v := v / 10;
      more := v > 0;
    }
  }

  method NegToBuf(buf: array<char>, end: nat, value: nat) returns (pos: nat)
    requires |Digits(value)| + 2 <= end <= buf.Length
    modifies buf
    ensures pos == end - 2 - |Digits(value)|
    ensures buf[pos..end] == ['-'] + Digits(value) + ['\0']
    ensures forall k :: 0 <= k < buf.Length && !(pos <= k < end) ==> buf[k] == old(buf[k])
  {
    pos := NonnegToBuf(buf, end, value);
    ghost var tail := buf[pos..end];
    pos := pos - 1;
    buf[pos] := '-';
    assert buf[pos..end] == ['-'] + tail;
  }

  /** The bottom value has no positive counterpart of its own type, but its unsigned
      image is the right magnitude. */
  method BottomToBuf(t: IntType, buf: array<char>, end: nat) returns (pos: nat)
    requires t.signed && t.SizeBuffer() <= end <= buf.Length
    modifies buf
    ensures pos + |Text(t.Min())| + 1 == end
    ensures buf[pos..end] == Text(t.Min()) + ['\0']
    ensures forall k :: 0 <= k < buf.Length && !(pos <= k < end) ==> buf[k] == old(buf[k])
  {
    var positive := t.Min() + 2 * (t.Max() + 1);
    TextFits(t, t.Min());
    pos := NegToBuf(buf, end, positive);
  }

  /** A buffer of the stated size is enough for every value of the type. */
  lemma TextFits(t: IntType, v: int)
    requires t.Fits(v)
    ensures |Text(v)| + 1 <= t.SizeBuffer()
  {
    var n := if v >= 0 then v else -v;
    Powers();
    DigitsLength(n, t.Digits10() + 1);
  }

  lemma Powers()
    ensures TenTo(5) == 100_000 && TenTo(10) == 10_000_000_000
    ensures TenTo(19) == 10_000_000_000_000_000_000 && TenTo(20) == 100_000_000_000_000_000_000
  {
    assert TenTo(3) == 1_000;
    assert TenTo(6) == 1_000_000;
    assert TenTo(9) == 1_000_000_000;
    assert TenTo(12) == 1_000_000_000_000;
    assert TenTo(15) == 1_000_000_000_000_000;
    assert TenTo(18) == 1_000_000_000_000_000_000;
  }

  /** to_buf: the text of the value ends at the end of the buffer. It is refused
      exactly when the buffer is smaller than the type may need. */
  method ToBuf(t: IntType, buf: array<char>, begin: nat, end: nat, value: int) returns (pos: Option<nat>)
    requires begin <= end <= buf.Length && t.Fits(value)
    modifies buf
    ensures pos.None? <==> end - begin < t.SizeBuffer()
    ensures pos.None? ==> buf[..] == old(buf[..])
    ensures pos.Some? ==> begin <= pos.value < end && buf[pos.value..end] == Text(value) + ['\0']
    ensures forall k :: 0 <= k < buf.Length && !(begin <= k < end) ==> buf[k] == old(buf[k])
  {
    if end - begin < t.SizeBuffer() {
      return None;
    }
    TextFits(t, value);
    var p;
    if value >= 0 {
      p := NonnegToBuf(buf, end, value);
    } else if value > t.Min() {
      p := NegToBuf(buf, end, -value);
    } else {
      p := BottomToBuf(t, buf, end);
    }
    pos := Some(p);
  }

  // ---------------------------------------------------------------------
  // From text: what is accepted
  // ---------------------------------------------------------------------

  predicate Blank(c: char) {
    c == ' ' || c == '\t'
  }

  function SkipBlanks(s: string): string {
    if s != [] && Blank(s[0]) then SkipBlanks(s[1..]) else s
  }

  /** The value of text of the form blanks, minus sign (if the type has one), digits;
      provided the value fits the type. */
  function Meaning(t: IntType, text: string): (r: Option<int>)
    ensures r.Some? ==> t.Fits(r.value)
  {
    var body := SkipBlanks(text);
    if body == [] then None
    else if AllDigits(body) then
      var v := DigitsValue(body);
      if t.Fits(v) then Some(v) else None
    else if t.signed && body[0] == '-' && |body| > 1 && AllDigits(body[1..]) then
      var v := -DigitsValue(body[1..]);
      if t.Fits(v) then Some(v) else None
    else None
  }

  // ---------------------------------------------------------------------
  // From text: arithmetic that cannot overflow
  // ---------------------------------------------------------------------

  /** 10*n, refused exactly when it would leave the type. */
  function SafeMultiplyByTen(t: IntType, n: int): (r: Option<int>)
    requires t.Fits(n)
    ensures r == if t.Fits(10 * n) then Some(10 * n) else None
  {
    var highThreshold := t.Max() / 10;
    // The division of C++ truncates toward zero.
    var lowThreshold := -(-t.Min() / 10);
    if n > highThreshold || (t.signed && lowThreshold > n) then None else Some(n * 10)
  }

  /** n+d for nonnegative n, refused exactly when it would leave the type. */
  function SafeAddDigit(t: IntType, n: int, d: int): (r: Option<int>)
    requires t.Fits(n) && n >= 0 && 0 <= d <= 9
    ensures r == if t.Fits(n + d) then Some(n + d) else None
  {
    var highThreshold := t.Max() - d;
    if n > highThreshold then None else Some(n + d)
  }

  /** n-d for nonpositive n, refused exactly when it would leave the type. */
  function SafeSubDigit(t: IntType, n: int, d: int): (r: Option<int>)
    requires t.signed && t.Fits(n) && n <= 0 && 0 <= d <= 9
    ensures r == if t.Fits(n - d) then Some(n - d) else None
  {
    var lowThreshold := t.Min() + d;
    if n < lowThreshold then None else Some(n - d)
  }

  function AbsorbPositive(t: IntType, n: int, d: int): (r: Option<int>)
    requires t.Fits(n) && n >= 0 && 0 <= d <= 9
    ensures r == if t.Fits(10 * n + d) then Some(10 * n + d) else None
  {
    match SafeMultiplyByTen(t, n)
    case None => None
    case Some(m) => SafeAddDigit(t, m, d)
  }

  function AbsorbNegative(t: IntType, n: int, d: int): (r: Option<int>)
    requires t.signed && t.Fits(n) && n <= 0 && 0 <= d <= 9
    ensures r == if t.Fits(10 * n - d) then Some(10 * n - d) else None
  {
    match SafeMultiplyByTen(t, n)
    case None => None
    case Some(m) => SafeSubDigit(t, m, d)
  }

  lemma {:induction false} SkipBlanksIsSuffix(s: string, k: nat)
    requires k <= |s| && forall i :: 0 <= i < k ==> Blank(s[i])
    requires k < |s| ==> !Blank(s[k])
    ensures SkipBlanks(s) == s[k..]
  {
    if k > 0 {
      assert s[1..][k - 1..] == s[k..];
      SkipBlanksIsSuffix(s[1..], k - 1);
    }
  }

  lemma NextDigit(s: string, from: nat, i: nat)
    requires from <= i < |s| && AllDigits(s[from..i]) && IsDigit(s[i])
    ensures AllDigits(s[from..i + 1])
    ensures DigitsValue(s[from..i + 1]) == 10 * DigitsValue(s[from..i]) + DigitNumber(s[i])
  {
    assert s[from..i + 1][..i - from] == s[from..i];
  }

  /** Once a prefix is out of range the whole number is. */
  lemma OverflowIsFinal(t: IntType, s: string, from: nat, i: nat)
    requires from <= i <= |s| && AllDigits(s[from..i])
    ensures !t.Fits(DigitsValue(s[from..i])) && AllDigits(s[from..]) ==> !t.Fits(DigitsValue(s[from..]))
    ensures !t.Fits(-DigitsValue(s[from..i])) && AllDigits(s[from..]) ==> !t.Fits(-DigitsValue(s[from..]))
  {
    if AllDigits(s[from..]) {
      PrefixIsSmaller(s[from..], i - from);
      assert s[from..][..i - from] == s[from..i];
    }
  }

  // ---------------------------------------------------------------------
  // From text: the parser
  // ---------------------------------------------------------------------

  /** from_string_integer on zero-terminated text: the value the text means, and an
      error exactly where it means none. The digit loop has no bound of its own; the
      terminator stops it. */
  method FromString(t: IntType, text: string) returns (r: Option<int>)
    ensures r == Meaning(t, text)
  {
    if |text| == 0 {
      return None;
    }
    var data := text + ['\0'];
    var i := 0;
    while i < |text| && Blank(data[i])
      invariant i <= |text| && forall k :: 0 <= k < i ==> Blank(text[k])
    {
      i := i + 1;
    }
    SkipBlanksIsSuffix(text, i);
    ghost var body := text[i..];
    if i == |text| {
      return None;
    }
    var start := i;
    assert body[0] == data[i];
    assert text[start..|text|] == body by {
      assert text[..|text|] == text;
    }
    if IsDigit(data[i]) {
      r, i := ParsePositive(t, text, i);
    } else if data[i] == '-' {
      if !t.signed {
        return None;
      }
      i := i + 1;
      if i >= |text| {
        return None;
      }
      r, i := ParseNegative(t, text, i);
      assert body[1..] == text[start + 1..] == text[start + 1..|text|];
      assert !IsDigit(body[0]);
    } else {
      return None;
    }
    if r.Some? && i < |text| {
      return None;
    }
  }

  method ParsePositive(t: IntType, text: string, from: nat) returns (r: Option<int>, i: nat)
    requires from < |text| && IsDigit(text[from])
    ensures from < i <= |text|
    ensures r.Some? ==> AllDigits(text[from..i]) && r.value == DigitsValue(text[from..i]) && t.Fits(r.value)
    ensures r.Some? && i < |text| ==> !AllDigits(text[from..])
    ensures r.None? && AllDigits(text[from..]) ==> !t.Fits(DigitsValue(text[from..]))
  {
    var data := text + ['\0'];
    var result := 0;
    i := from;
    while IsDigit(data[i])
      invariant from <= i <= |text| && (i == from ==> IsDigit(data[i]))
      invariant AllDigits(text[from..i]) && result == DigitsValue(text[from..i]) && t.Fits(result)
      decreases |text| - i
    {
      NextDigit(text, from, i);
      OverflowIsFinal(t, text, from, i + 1);
      var next := AbsorbPositive(t, result, DigitNumber(data[i]));
      if next.None? {
        return None, i + 1;
      }
      result := next.value;
      i := i + 1;
    }
    if i < |text| { assert text[from..][i - from] == text[i]; }
    r := Some(result);
  }

  method ParseNegative(t: IntType, text: string, from: nat) returns (r: Option<int>, i: nat)
    requires t.signed && from < |text|
    ensures from <= i <= |text|
    ensures r.Some? ==> AllDigits(text[from..i]) && r.value == -DigitsValue(text[from..i]) && t.Fits(r.value)
    ensures r.Some? && i < |text| ==> !AllDigits(text[from..])
    ensures r.None? && AllDigits(text[from..]) ==> !t.Fits(-DigitsValue(text[from..]))
  {
    var result := 0;
    i := from;
    while i < |text| && IsDigit(text[i])
      invariant from <= i <= |text|
      invariant AllDigits(text[from..i]) && result == -DigitsValue(text[from..i]) && t.Fits(result)
    {
      NextDigit(text, from, i);
      OverflowIsFinal(t, text, from, i + 1);
      var next := AbsorbNegative(t, result, DigitNumber(text[i]));
      if next.None? {
        return None, i;
      }
      result := next.value;
      i := i + 1;
    }
    if i < |text| { assert text[from..][i - from] == text[i]; }
    r := Some(result);
  }

  /** Every value of every type, the least one included, is read back from its text,
      with any blanks and tabs before it. */
  lemma TextRoundTrip(t: IntType, v: int, blanks: string)
    requires t.Fits(v) && forall i :: 0 <= i < |blanks| ==> blanks[i] == ' ' || blanks[i] == '\t'
    ensures Meaning(t, blanks + Text(v)) == Some(v)
  {
    var s := blanks + Text(v);
    assert s[|blanks|] == Text(v)[0] && s[|blanks|..] == Text(v);
    SkipBlanksIsSuffix(s, |blanks|);
    if v >= 0 {
      DigitsValueOfDigits(v);
    } else {
      DigitsValueOfDigits(-v);
      assert Text(v)[1..] == Digits(-v);
    }
  }
}
