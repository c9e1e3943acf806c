/** Reading numbers the way the C and C++ libraries do: atoi, stoi, and an input
    string stream. */
module CLibrary {
  import opened Common
  import opened IntegerText

  const LONG_MAX := 0x7FFF_FFFF_FFFF_FFFF
  const SIZE_MAX := 0xFFFF_FFFF_FFFF_FFFF

  predicate StartsWith(s: string, prefix: string) {
    |s| >= |prefix| && s[..|prefix|] == prefix
  }

  lemma PrefixAt(s: string, prefix: string, k: nat)
    requires k < |prefix| && (k < |s| ==> s[k] != prefix[k])
    ensures !StartsWith(s, prefix)
  {
    if |s| >= |prefix| {
      assert s[..|prefix|][k] == s[k];
    }
  }

  predicate Space(c: char) {
    c == ' ' || '\t' <= c <= '\r'
  }

  function SkipSpace(s: string): string {
    if s != [] && Space(s[0]) then SkipSpace(s[1..]) else s
  }

  function DigitPrefix(s: string): (p: string)
    ensures AllDigits(p) && StartsWith(s, p)
  {
    if s != [] && IsDigit(s[0]) then [s[0]] + DigitPrefix(s[1..]) else []
  }

  /** A number is read whole if no further digit follows it. */
  lemma {:induction false} DigitPrefixOf(digits: string, rest: string)
    requires AllDigits(digits) && (rest != [] ==> !IsDigit(rest[0]))
    ensures DigitPrefix(digits + rest) == digits
  {
    var s := digits + rest;
    if digits != [] {
      assert s[1..] == digits[1..] + rest;
      DigitPrefixOf(digits[1..], rest);
    }
  }

  /** An optional sign and what follows it. */
  function Unsigned(s: string): (bool, string) {
    (s != [] && s[0] == '-', if s != [] && s[0] in {'-', '+'} then s[1..] else s)
  }

  /** atoi as the conversion to long, saturated, cut down to a 32-bit int. */
  function Atoi(s: string): int {
    var (negative, body) := Unsigned(SkipSpace(s));
    var n := DigitsValue(DigitPrefix(body));
    var long := if negative then (if n > LONG_MAX then -LONG_MAX - 1 else -n)
                else (if n > LONG_MAX then LONG_MAX else n);
    (long + 0x8000_0000) % 0x1_0000_0000 - 0x8000_0000
  }

  /** stoi; None is one of its two exceptions, no number or one outside int. */
  function Stoi(s: string): Option<int> {
    var (negative, body) := Unsigned(SkipSpace(s));
    var digits := DigitPrefix(body);
    var n := if negative then -DigitsValue(digits) else DigitsValue(digits);
    if digits == [] || !(-INT_MAX - 1 <= n <= INT_MAX) then None else Some(n)
  }

  /** An input string stream: what is still to be read, and the two state flags. */
  datatype InStream = InStream(rest: string, eof: bool, fail: bool) {
    predicate Good() {
      !eof && !fail
    }

    /** >> into a size_t that was zero. A failed read leaves or stores zero, except
        that a number too large stores the largest; a minus sign wraps around. */
    function ReadSize(): (r: (InStream, nat))
      ensures r.1 <= SIZE_MAX
    {
      var (negative, body) := Unsigned(SkipSpace(rest));
      var digits := DigitPrefix(body);
      var after := body[|digits|..];
      var n := DigitsValue(digits);
      if !Good() then (this.(fail := true), 0)
      else if digits == [] then (InStream(after, after == [], true), 0)
      else if n > SIZE_MAX then (InStream(after, after == [], true), SIZE_MAX)
      else (InStream(after, after == [], false), if negative then (SIZE_MAX + 1 - n) % (SIZE_MAX + 1) else n)
    }

    /** ignore(1). Meeting the end is noticed, reaching it is not. */
    function Ignore(): InStream {
      if !Good() then this.(fail := true)
      else if rest == [] then this.(eof := true)
      else this.(rest := rest[1..])
    }

    /** What lies behind tellg(); None where it reports no position. */
    function Remaining(): Option<string> {
      if Good() then Some(rest) else None
    }

    /** getline into an empty string. */
    function Line(): string {
      if Good() then UpTo(rest, '\n') else ""
    }
  }

  /** The text before the first c, or all of it. */
  function UpTo(s: string, c: char): (r: string)
    ensures StartsWith(s, r) && c !in r && (|r| < |s| ==> s[|r|] == c)
  {
    if s == [] || s[0] == c then [] else [s[0]] + UpTo(s[1..], c)
  }

  function Open(s: string): InStream {
    InStream(s, false, false)
  }

  /** A printed number and the character after it are read back. */
  lemma ReadSizeOfDigits(n: nat, rest: string)
    requires n <= SIZE_MAX && rest != [] && !IsDigit(rest[0])
    ensures Open(Digits(n) + rest).ReadSize() == (Open(rest), n)
    ensures Open([' '] + Digits(n) + rest).ReadSize() == (Open(rest), n)
  {
    hide Digits, DigitsValue, DigitPrefix;
    var digits := Digits(n);
    var s := digits + rest;
    assert IsDigit(s[0]) && s[|digits|..] == rest;
    DigitPrefixOf(digits, rest);
    DigitsValueOfDigits(n);
    assert Open(s).ReadSize() == (Open(rest), n);
    assert ([' '] + digits + rest)[1..] == s && SkipSpace(s) == s;
  }

  /** So is one that ends the stream. */
  lemma ReadLastSize(n: nat)
    requires n <= SIZE_MAX
    ensures Open([' '] + Digits(n)).ReadSize() == (InStream([], true, false), n)
  {
    hide Digits, DigitsValue, DigitPrefix;
    var digits := Digits(n);
    assert IsDigit(digits[0]) && digits + [] == digits;
    DigitPrefixOf(digits, []);
    DigitsValueOfDigits(n);
    assert ([' '] + digits)[1..] == digits && SkipSpace(digits) == digits;
  }

  /** stoi reads back exactly the printed numbers that an int can hold. */
  lemma StoiOfDigits(n: nat)
    ensures Stoi(Digits(n)) == if n <= INT_MAX then Some(n) else None
  {
    hide Digits, DigitsValue, DigitPrefix;
    var digits := Digits(n);
    assert IsDigit(digits[0]) && digits + [] == digits;
    DigitPrefixOf(digits, []);
    DigitsValueOfDigits(n);
  }

  lemma SignedDigits(n: nat)
    ensures var s := "-" + Digits(n);
      Unsigned(SkipSpace(s)) == (true, Digits(n)) && DigitPrefix(Digits(n)) == Digits(n)
    ensures DigitsValue(Digits(n)) == n
  {
    hide Digits, DigitsValue, DigitPrefix;
    var s := "-" + Digits(n);
    assert s[0] == '-' && s[1..] == Digits(n);
    assert Digits(n) + [] == Digits(n);
    DigitPrefixOf(Digits(n), []);
    DigitsValueOfDigits(n);
  }

  /** And with a minus sign, down to the least int. */
  lemma StoiOfNegative(n: nat)
    ensures Stoi("-" + Digits(n)) == if n <= INT_MAX + 1 then Some(-(n as int)) else None
  {
    hide Digits, DigitsValue, DigitPrefix;
    SignedDigits(n);
  }
}
