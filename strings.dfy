/**
 * The few pieces of Python string handling and SQL text functions the store relies on:
 * truthiness of form fields, ASCII LOWER(), prefix/suffix tests, str.split, str.strip,
 * int() on a decimal string, and the decimal rendering that int() inverts.
 */
module Strings {
  import opened Wrappers

  /** Python truthiness of an optional form field: absent (None) and "" are both falsy. */
  predicate Present(field: Option<string>)
  {
    field.Some? && field.value != ""
  }

  predicate IsDigit(c: char)
  {
    '0' <= c <= '9'
  }

  /** The whitespace str.strip() removes (the ASCII part of it): space, tab, line feed,
      vertical tab, form feed, carriage return and the separators 0x1C-0x1F. */
  predicate IsSpace(c: char)
  {
    c == ' ' || c == '\t' || c == '\n' || c == '\r' || c as int == 11 || c as int == 12 || 28 <= c as int <= 31
  }

  /** SQLite's built-in LOWER() folds ASCII letters only. */
  function Lower(c: char): char
  {
    if 'A' <= c <= 'Z' then (c as int + 32) as char else c
  }

  function LowerAll(s: string): (r: string)
    ensures |r| == |s|
    ensures forall i :: 0 <= i < |s| ==> r[i] == Lower(s[i])
  {
    if s == [] then [] else [Lower(s[0])] + LowerAll(s[1..])
  }

  predicate StartsWith(s: string, prefix: string)
  {
    |prefix| <= |s| && s[..|prefix|] == prefix
  }

  predicate EndsWith(s: string, suffix: string)
  {
    |suffix| <= |s| && s[|s| - |suffix|..] == suffix
  }

  /** `sep.join(parts)` */
  function Join(parts: seq<string>, sep: string): string
  {
    if parts == [] then ""
    else if |parts| == 1 then parts[0]
    else parts[0] + sep + Join(parts[1..], sep)
  }

  /** `s.split(sep)` for a one-character separator: never empty, keeps empty pieces. */
  function Split(s: string, sep: char): (parts: seq<string>)
    ensures |parts| >= 1
  {
    if s == [] then [""]
    else
      var rest := Split(s[1..], sep);
      if s[0] == sep then [""] + rest else [[s[0]] + rest[0]] + rest[1..]
  }

  lemma {:induction false} SplitNoSeparator(s: string, sep: char)
    requires sep !in s
    ensures Split(s, sep) == [s]
  {
    if s != [] {
      assert sep !in s[1..] by { assert forall c :: c in s[1..] ==> c in s; }
      SplitNoSeparator(s[1..], sep);
      assert [s[0]] + s[1..] == s;
    }
  }

  lemma {:induction false} SplitAtSeparator(x: string, y: string, sep: char)
    requires sep !in x
    ensures Split(x + [sep] + y, sep) == [x] + Split(y, sep)
  {
    if x == [] {
      assert x + [sep] + y == [sep] + y;
      assert ([sep] + y)[1..] == y;
    } else {
      var s := x + [sep] + y;
      assert s[0] == x[0];
      assert s[1..] == x[1..] + [sep] + y;
      assert sep !in x[1..] by { assert forall c :: c in x[1..] ==> c in x; }
      SplitAtSeparator(x[1..], y, sep);
      assert [x[0]] + x[1..] == x;
    }
  }

  /** Splitting undoes joining when no piece contains the separator. */
  lemma {:induction false} SplitJoin(parts: seq<string>, sep: char)
    requires |parts| >= 1
    requires forall i :: 0 <= i < |parts| ==> sep !in parts[i]
    ensures Split(Join(parts, [sep]), sep) == parts
  {
    if |parts| == 1 {
      SplitNoSeparator(parts[0], sep);
    } else {
      SplitJoin(parts[1..], sep);
      SplitAtSeparator(parts[0], Join(parts[1..], [sep]), sep);
      assert [parts[0]] + parts[1..] == parts;
    }
  }

  function TrimLeft(s: string): (r: string)
    ensures |r| <= |s|
  {
    if s != [] && IsSpace(s[0]) then TrimLeft(s[1..]) else s
  }

  function TrimRight(s: string): (r: string)
    ensures |r| <= |s|
  {
    if s != [] && IsSpace(s[|s| - 1]) then TrimRight(s[..|s| - 1]) else s
  }

  /** `s.strip()` */
  function Strip(s: string): string
  {
    TrimRight(TrimLeft(s))
  }

  predicate IsDigits(s: string)
  {
    |s| >= 1 && forall i :: 0 <= i < |s| ==> IsDigit(s[i])
  }

  function DigitValue(c: char): nat
    requires IsDigit(c)
  {
    c as int - '0' as int
  }

  function DigitChar(d: nat): (c: char)
    requires d < 10
    ensures IsDigit(c) && DigitValue(c) == d
  {
    ('0' as int + d) as char
  }

  /** The value of a run of decimal digits, most significant first. */
  function DigitsValue(s: string): nat
    requires forall i :: 0 <= i < |s| ==> IsDigit(s[i])
  {
    if s == [] then 0 else 10 * DigitsValue(s[..|s| - 1]) + DigitValue(s[|s| - 1])
  }

  /** The texts `int()` reads, once stripped: an optional '+' or '-' followed by one or
      more ASCII digits. */
  predicate IntText(t: string)
  {
    IsDigits(t) || (|t| >= 1 && (t[0] == '+' || t[0] == '-') && IsDigits(t[1..]))
  }

  /** Python `int(s)`: surrounding whitespace, an optional sign and at least one digit.
      Every other text is refused (ValueError). */
  function ParseInt(s: string): (r: Option<int>)
    ensures r.Some? ==> Strip(s) != ""
    ensures r.Some? <==> IntText(Strip(s))
    ensures r.Some? && IsDigits(Strip(s)) ==> r.value == DigitsValue(Strip(s))
    ensures r.Some? && Strip(s)[0] == '+' ==> r.value == DigitsValue(Strip(s)[1..])
    ensures r.Some? && Strip(s)[0] == '-' ==> r.value == -(DigitsValue(Strip(s)[1..]) as int)
  {
    var t := Strip(s);
    if |t| >= 1 && (t[0] == '-' || t[0] == '+') then
      if IsDigits(t[1..]) then
        Some(if t[0] == '-' then -(DigitsValue(t[1..]) as int) else DigitsValue(t[1..]))
      else None
    else if IsDigits(t) then Some(DigitsValue(t))
    else None
  }

  /** `str(n)` for a natural number. */
  function NatToString(n: nat): (s: string)
    ensures IsDigits(s)
  {
    if n < 10 then [DigitChar(n)] else NatToString(n / 10) + [DigitChar(n % 10)]
  }

  /** `str(i)` */
  function IntToString(i: int): string
  {
    if i < 0 then "-" + NatToString(-i) else NatToString(i)
  }

  lemma {:induction false} NatToStringValue(n: nat)
    ensures DigitsValue(NatToString(n)) == n
  {
    var s := NatToString(n);
    if n >= 10 {
      NatToStringValue(n / 10);
      assert s[..|s| - 1] == NatToString(n / 10);
    }
  }

  lemma StripUnpadded(s: string)
    requires s != [] && !IsSpace(s[0]) && !IsSpace(s[|s| - 1])
    ensures Strip(s) == s
  {
  }

  /** int() reads back what str() writes. */
  lemma {:induction false} ParseIntRoundTrip(i: int)
    ensures ParseInt(IntToString(i)) == Some(i)
  {
    var s := IntToString(i);
    var digits := NatToString(if i < 0 then -i else i);
    NatToStringValue(if i < 0 then -i else i);
    assert IsDigit(digits[0]) && IsDigit(digits[|digits| - 1]);
    if i < 0 {
      assert s[0] == '-' && s[|s| - 1] == digits[|digits| - 1];
      StripUnpadded(s);
      assert s[1..] == digits;
    } else {
      StripUnpadded(s);
    }
  }

  lemma NoSpaceInDigits(s: string)
    requires IsDigits(s)
    ensures forall i :: 0 <= i < |s| ==> !IsSpace(s[i]) && s[i] != ',' && s[i] != '.'
  {
  }

  lemma IntToStringHasNo(i: int, c: char)
    requires c == ',' || c == '.'
    ensures c !in IntToString(i)
  {
    var digits := NatToString(if i < 0 then -i else i);
    NoSpaceInDigits(digits);
    if i < 0 {
      assert IntToString(i) == "-" + digits;
    }
  }
}
