/** The fragment of SQL text the chat server writes, and how the backend reads it:
    rows of numbers and quoted string constants (section 4.1.2.1 of the PostgreSQL
    documentation, with standard-conforming strings). */
module Sql {
  import opened CLibrary
  import opened Common
  import opened IntegerText

  /** What regex_replace does with every quote of a value. */
  function Doubled(s: string): string {
    if s == [] then [] else (if s[0] == '\'' then "''" else [s[0]]) + Doubled(s[1..])
  }

  /** A query leaves the program as a C string. */
  function CString(s: string): (r: string)
    ensures '\0' !in r
  {
    UpTo(s, '\0')
  }

  // ---------------------------------------------------------------------
  // Reading
  // ---------------------------------------------------------------------

  datatype Literal = Number(n: nat) | Quoted(s: string)

  datatype Read<T> = Failed | Got(value: T, rest: string)

  /** The rest of a string constant: it ends at a quote that has no quote after it. */
  function ReadConstant(s: string): Read<string> {
    if s == [] then Failed
    else if s[0] != '\'' then
      match ReadConstant(s[1..])
      case Failed => Failed
      case Got(t, rest) => Got([s[0]] + t, rest)
    else if |s| > 1 && s[1] == '\'' then
      match ReadConstant(s[2..])
      case Failed => Failed
      case Got(t, rest) => Got(['\''] + t, rest)
    else Got([], s[1..])
  }

  function ReadLiteral(s: string): (r: Read<Literal>)
    ensures r.Got? ==> |r.rest| < |s|
  {
    if s == [] then Failed
    else if s[0] == '\'' then
      ConstantIsNotEmpty(s[1..]);
      match ReadConstant(s[1..])
      case Failed => Failed
      case Got(t, rest) => Got(Quoted(t), rest)
    else
      var digits := DigitPrefix(s);
      if digits == [] then Failed else Got(Number(DigitsValue(digits)), s[|digits|..])
  }

  lemma {:induction false} ConstantIsNotEmpty(s: string)
    ensures var r := ReadConstant(s); r.Got? ==> |r.rest| < |s|
  {
    if s != [] {
      ConstantIsNotEmpty(s[1..]);
      if |s| > 1 { ConstantIsNotEmpty(s[2..]); }
    }
  }

  /** The row that follows an opening parenthesis. */
  function ReadRow(s: string): Option<seq<Literal>>
    decreases |s|
  {
    match ReadLiteral(s)
    case Failed => None
    case Got(x, rest) =>
      if rest == ")" then Some([x])
      else if StartsWith(rest, ", ") then
        match ReadRow(rest[2..])
        case None => None
        case Some(row) => Some([x] + row)
      else None
  }

  /** The constant a condition compares with, alone at the end of the query. */
  function ReadCondition(s: string): Option<Literal> {
    match ReadLiteral(s)
    case Failed => None
    case Got(x, rest) => if rest == [] then Some(x) else None
  }

  // ---------------------------------------------------------------------
  // Written values are read back
  // ---------------------------------------------------------------------

  /** Doubling every quote is exactly what the reader undoes. */
  lemma {:induction false} ConstantRoundTrip(t: string, rest: string)
    requires rest != [] ==> rest[0] != '\''
    ensures ReadConstant(Doubled(t) + ['\''] + rest) == Got(t, rest)
  {
    var s := Doubled(t) + ['\''] + rest;
    if t == [] {
      assert s == ['\''] + rest;
    } else {
      ConstantRoundTrip(t[1..], rest);
      var tail := Doubled(t[1..]) + ['\''] + rest;
      if t[0] == '\'' {
        assert s[2..] == tail && s[0] == s[1] == '\'';
      } else {
        assert s[1..] == tail && s[0] == t[0];
      }
      assert [t[0]] + t[1..] == t;
    }
  }

  /** A constant that is cut off has no end. */
  lemma {:induction false} CutConstantFails(t: string)
    ensures ReadConstant(Doubled(t)) == Failed
  {
    if t != [] {
      CutConstantFails(t[1..]);
      var s := Doubled(t);
      if t[0] == '\'' {
        assert s[2..] == Doubled(t[1..]) && s[0] == s[1] == '\'';
      } else {
        assert s[1..] == Doubled(t[1..]);
      }
    }
  }

  lemma {:induction false} CutAfter(a: string, b: string)
    requires '\0' !in a
    ensures CString(a + b) == a + CString(b)
  {
    if a == [] {
      assert a + b == b;
    } else {
      assert (a + b)[0] == a[0] && (a + b)[1..] == a[1..] + b;
      CutAfter(a[1..], b);
    }
  }

  lemma DoubledCons(c: char, s: string)
    ensures Doubled([c] + s) == (if c == '\'' then "''" else [c]) + Doubled(s)
  {
    assert ([c] + s)[1..] == s;
  }

  lemma UpToCons(c: char, s: string)
    requires c != '\0'
    ensures UpTo([c] + s, '\0') == [c] + UpTo(s, '\0')
  {
    assert ([c] + s)[1..] == s;
  }

  lemma {:induction false} CutOfDoubled(t: string, rest: string)
    ensures CString(Doubled(t) + rest) ==
      if '\0' in t then Doubled(UpTo(t, '\0')) else Doubled(t) + CString(rest)
  {
    if t == [] {
      assert Doubled(t) + rest == rest;
    } else if t[0] == '\0' {
      assert (Doubled(t) + rest)[0] == '\0';
    } else {
      hide Doubled, UpTo, CString;
      var head := if t[0] == '\'' then "''" else [t[0]];
      var tail := t[1..];
      assert t == [t[0]] + tail;
      DoubledCons(t[0], tail);
      assert Doubled(t) + rest == head + (Doubled(tail) + rest);
      CutAfter(head, Doubled(tail) + rest);
      CutOfDoubled(tail, rest);
      UpToCons(t[0], tail);
      DoubledCons(t[0], UpTo(tail, '\0'));
    }
  }

  lemma NoZero(s: string)
    requires '\0' !in s
    ensures CString(s) == s
  {
    CutAfter(s, []);
    assert s + [] == s;
  }

  /** A quoted value survives the way to the backend unless it holds a zero byte. */
  lemma QuotedIsRead(t: string, rest: string)
    requires '\0' !in rest && (rest != [] ==> rest[0] != '\'')
    ensures ReadLiteral(CString(['\''] + Doubled(t) + ['\''] + rest)) ==
      if '\0' in t then Failed else Got(Quoted(t), rest)
  {
    hide Doubled, ReadConstant, CString;
    var s := ['\''] + Doubled(t) + ['\''] + rest;
    var tail := Doubled(t) + ['\''] + rest;
    assert s == ['\''] + tail && tail == Doubled(t) + (['\''] + rest);
    CutAfter(['\''], tail);
    CutOfDoubled(t, ['\''] + rest);
    var sent := CString(s);
    assert sent[0] == '\'' && sent[1..] == CString(tail);
    if '\0' in t {
      CutConstantFails(UpTo(t, '\0'));
    } else {
      NoZero(['\''] + rest);
      assert sent[1..] == tail;
      ConstantRoundTrip(t, rest);
    }
  }

  lemma NumberIsRead(n: nat, rest: string)
    requires rest != [] ==> !IsDigit(rest[0])
    ensures ReadLiteral(Digits(n) + rest) == Got(Number(n), rest)
  {
    hide Digits, DigitsValue, DigitPrefix;
    var s := Digits(n) + rest;
    assert IsDigit(s[0]) && s[|Digits(n)|..] == rest;
    DigitPrefixOf(Digits(n), rest);
    DigitsValueOfDigits(n);
  }
}
