/** The scalar conversions used on configuration values: `int` (Int32)
    arithmetic, `int.TryParse`, `int.ToString()` and `bool.TryParse`. */
module Scalars {
  import opened Wrappers
  import opened Text

  const INT32_MIN: int := -0x8000_0000
  const INT32_MAX: int := 0x7FFF_FFFF

  predicate IsInt32(n: int) {
    INT32_MIN <= n <= INT32_MAX
  }

  /** Unchecked C# `int` arithmetic: the mathematical result reduced into the
      32-bit two's-complement range. */
  function Wrap32(n: int): (r: int)
    ensures IsInt32(r)
    ensures (r - n) % 0x1_0000_0000 == 0
    ensures IsInt32(n) ==> r == n
  {
    (n - INT32_MIN) % 0x1_0000_0000 + INT32_MIN
  }

  predicate IsDigit(c: char) {
    '0' <= c <= '9'
  }

  predicate AllDigits(s: string) {
    forall i :: 0 <= i < |s| ==> IsDigit(s[i])
  }

  function DigitValue(c: char): (d: nat)
    requires IsDigit(c)
    ensures d < 10
  {
    c as int - '0' as int
  }

  function DigitChar(d: nat): (c: char)
    requires d < 10
    ensures IsDigit(c) && DigitValue(c) == d
  {
    ('0' as int + d) as char
  }

  /** The number written by a string of decimal digits. */
  function DigitsValue(s: string): nat
    requires AllDigits(s)
  {
    if s == [] then 0 else DigitsValue(s[..|s| - 1]) * 10 + DigitValue(s[|s| - 1])
  }

  /** The decimal digits of `n`, most significant first, without leading zeros. */
  function NatDigits(n: nat): (r: string)
    ensures |r| > 0 && AllDigits(r)
    ensures r[0] != '0' || n == 0
  {
    if n < 10 then [DigitChar(n)] else NatDigits(n / 10) + [DigitChar(n % 10)]
  }

  lemma {:induction false} NatDigitsValue(n: nat)
    ensures DigitsValue(NatDigits(n)) == n
  {
    if n >= 10 {
      var r := NatDigits(n);
      assert r[..|r| - 1] == NatDigits(n / 10);
      NatDigitsValue(n / 10);
    }
  }

  /** The white space `int.TryParse` skips around a number: U+0009..U+000D
      and the space. */
  predicate IsNumberWhite(c: char) {
    c == ' ' || ('\t' <= c <= '\r')
  }

  /** The text `int.TryParse` accepts as an integer once the surrounding
      white space is removed: an optional sign followed by one or more
      decimal digits. */
  predicate IsIntegerText(s: string) {
    |s| > 0 &&
    if s[0] == '-' || s[0] == '+' then |s| > 1 && AllDigits(s[1..]) else AllDigits(s)
  }

  function IntegerTextValue(s: string): int
    requires IsIntegerText(s)
  {
    if s[0] == '-' then -(DigitsValue(s[1..]) as int)
    else if s[0] == '+' then DigitsValue(s[1..])
    else DigitsValue(s)
  }

  predicate IsNul(c: char) {
    c == '\0'
  }

  /** A character that may stand in an integer text: a digit or a sign. */
  predicate IsNumberChar(c: char) {
    IsDigit(c) || c == '-' || c == '+'
  }

  /** The text `int.TryParse` reads a number from: it tolerates NUL
      characters at the very end and white space around the number. */
  function NumberText(s: string): string {
    TrimWith(TrimEndWith(s, IsNul), IsNumberWhite)
  }

  /** `int.TryParse(s, out n)`: `Some(n)` when it returns true.  The syntax
      it accepts is stated by `ParsePadded`, `AcceptedShape` and
      `ParseRejects`. */
  function TryParseInt(s: string): Option<int> {
    var t := NumberText(s);
    if IsIntegerText(t) && IsInt32(IntegerTextValue(t)) then Some(IntegerTextValue(t)) else None
  }

  /** An integer text starts with a sign or a digit, ends with a digit and
      holds nothing else. */
  lemma IntegerTextChars(t: string)
    requires IsIntegerText(t)
    ensures IsDigit(t[|t| - 1])
    ensures forall i :: 0 <= i < |t| ==> IsNumberChar(t[i])
  {
    if t[0] == '-' || t[0] == '+' {
      assert t[|t| - 1] == t[1..][|t| - 2];
      assert forall i :: 1 <= i < |t| ==> t[i] == t[1..][i - 1];
    }
  }

  /** `NumberText(s)` is a slice of `s`: white space before it, then white
      space, then NUL characters after it. */
  lemma NumberTextSlice(s: string) returns (a: nat, m: nat)
    ensures var t := NumberText(s);
      && a + |t| <= m <= |s| && t == s[a..a + |t|]
      && (forall i :: 0 <= i < a ==> IsNumberWhite(s[i]))
      && (forall i :: a + |t| <= i < m ==> IsNumberWhite(s[i]))
      && (forall i :: m <= i < |s| ==> IsNul(s[i]))
  {
    var z := TrimEndWith(s, IsNul);
    TrimEndFacts(s, IsNul);
    a := TrimFacts(z, IsNumberWhite);
    m := |z|;
    var t := NumberText(s);
    assert z == s[..m];
    assert t == z[a..a + |t|];
  }

  /** A number in `int.TryParse`'s syntax parses whatever white space
      surrounds it and whatever NUL characters follow it, and exactly when
      it fits in 32 bits. */
  lemma ParsePadded(front: string, t: string, back: string, zeros: string)
    requires forall i :: 0 <= i < |front| ==> IsNumberWhite(front[i])
    requires forall i :: 0 <= i < |back| ==> IsNumberWhite(back[i])
    requires forall i :: 0 <= i < |zeros| ==> IsNul(zeros[i])
    requires IsIntegerText(t)
    ensures TryParseInt(front + t + back + zeros)
         == if IsInt32(IntegerTextValue(t)) then Some(IntegerTextValue(t)) else None
  {
    IntegerTextChars(t);
    var rest := front + t + back;
    assert !IsNul(rest[|rest| - 1]) by {
      if back == [] {
        assert rest[|rest| - 1] == t[|t| - 1];
      } else {
        assert rest[|rest| - 1] == back[|back| - 1];
      }
    }
    TrimEndPast(rest, zeros, IsNul);
    TrimWithOf(front, t, back, IsNumberWhite);
  }

  /** Any text `int.TryParse` accepts is made of digits, signs, white space
      and NUL characters, and a NUL is followed by NULs only. */
  lemma AcceptedShape(s: string)
    ensures TryParseInt(s).Some? ==>
      && (forall i :: 0 <= i < |s| ==> IsNumberChar(s[i]) || IsNumberWhite(s[i]) || IsNul(s[i]))
      && (forall i, j :: 0 <= i < j < |s| && IsNul(s[i]) ==> IsNul(s[j]))
  {
    if TryParseInt(s).Some? {
      var a, m := NumberTextSlice(s);
      var t := NumberText(s);
      IntegerTextChars(t);
      forall i | 0 <= i < |s|
        ensures IsNumberChar(s[i]) || IsNumberWhite(s[i]) || IsNul(s[i])
        ensures IsNul(s[i]) ==> m <= i
      {
        if a <= i < a + |t| {
          assert s[i] == t[i - a];
        }
      }
    }
  }

  /** NUL characters after a number, after its trailing white space too,
      are tolerated. */
  lemma ParseTrailingNul()
    ensures TryParseInt("5\0") == Some(5)
    ensures TryParseInt(" -12 \0\0") == Some(-12)
  {
    ParsePadded("", "5", "", "\0");
    assert "" + "5" + "" + "\0" == "5\0";
    ParsePadded(" ", "-12", " ", "\0\0");
    assert " " + "-12" + " " + "\0\0" == " -12 \0\0";
    assert DigitsValue("12") == 12 by {
      assert "12"[..1] == "1";
    }
  }

  /** The empty text and a bare sign are no numbers, and neither is a
      number followed by a NUL and then a space. */
  lemma ParseRejects()
    ensures TryParseInt("").None? && TryParseInt("+").None? && TryParseInt("-").None?
    ensures TryParseInt("5\0 ").None?
  {
    AcceptedShape("5\0 ");
  }

  /** `n.ToString()` with the invariant culture. */
  function IntToString(n: int): (r: string)
    ensures IsIntegerText(r) && IntegerTextValue(r) == n
    ensures r[0] == '-' <==> n < 0
    ensures r[0] != '+'
  {
    NatDigitsValue(if n < 0 then -n else n);
    if n < 0 then "-" + NatDigits(-n) else NatDigits(n)
  }

  /** Formatting an `int` and parsing it back gives the same number. */
  lemma ParseFormatted(n: int)
    requires IsInt32(n)
    ensures TryParseInt(IntToString(n)) == Some(n)
  {
    var s := IntToString(n);
    ParsePadded("", s, "", "");
    assert "" + s + "" + "" == s;
  }

  /** A number outside the 32-bit range is formatted but not parsed back. */
  lemma OutOfRangeRefused(n: int)
    requires !IsInt32(n)
    ensures TryParseInt(IntToString(n)).None?
  {
    var s := IntToString(n);
    ParsePadded("", s, "", "");
    assert "" + s + "" + "" == s;
  }

  /** `bool.TryParse(s, out b)`: "true" or "false" in any ASCII case, after
      removing surrounding white space and NUL characters.  Stated by
      `BoolPadded` and `TryParseBoolIgnoresCase`. */
  function TryParseBool(s: string): Option<bool> {
    var t := Lower(TrimWith(s, IsWhiteOrNul));
    if t == "true" then Some(true) else if t == "false" then Some(false) else None
  }

  predicate IsWhiteOrNul(c: char) {
    IsWhite(c) || c == '\0'
  }

  /** "true" or "false" in any case parses, whatever white space and NUL
      characters surround it. */
  lemma BoolPadded(front: string, t: string, back: string)
    requires forall i :: 0 <= i < |front| ==> IsWhiteOrNul(front[i])
    requires forall i :: 0 <= i < |back| ==> IsWhiteOrNul(back[i])
    requires Lower(t) == "true" || Lower(t) == "false"
    ensures TryParseBool(front + t + back) == Some(Lower(t) == "true")
  {
    assert Lower(t)[0] == LowerChar(t[0]) && Lower(t)[|t| - 1] == LowerChar(t[|t| - 1]);
    assert 'a' <= Lower(t)[0] <= 'z' && 'a' <= Lower(t)[|t| - 1] <= 'z';
    TrimWithOf(front, t, back, IsWhiteOrNul);
  }

  /** Lower-casing the text first changes nothing: `bool.TryParse` already
      ignores case. */
  lemma TryParseBoolIgnoresCase(s: string)
    ensures TryParseBool(Lower(s)) == TryParseBool(s)
  {
    forall c ensures IsWhiteOrNul(LowerChar(c)) == IsWhiteOrNul(c) {
      if IsUpper(c) {
        assert 'a' <= LowerChar(c) <= 'z';
      }
    }
    LowerTrimCommutes(s, IsWhiteOrNul);
    LowerFacts(TrimWith(s, IsWhiteOrNul));
  }

  /** A digit string is neither "true" nor "false", so no value is both an
      integer and a boolean. */
  lemma IntegerIsNotBoolean(s: string)
    ensures !(TryParseInt(s).Some? && TryParseBool(s).Some?)
  {
    if TryParseInt(s).Some? {
      var t := IntegerTrimsToDigitEnd(s);
      DigitEndIsNotBoolean(t);
    }
  }

  lemma IntegerTrimsToDigitEnd(s: string) returns (t: string)
    requires TryParseInt(s).Some?
    ensures t == TrimWith(s, IsWhiteOrNul) && t != [] && IsDigit(t[|t| - 1])
  {
    t := NumberText(s);
    assert IsIntegerText(t);
    IntegerTextChars(t);
    assert !IsWhiteOrNul(t[0]) && !IsWhiteOrNul(t[|t| - 1]) by {
      assert IsNumberChar(t[0]) && IsNumberChar(t[|t| - 1]);
    }
    TrimToNumberText(s);
  }

  /** When the number text neither starts nor ends with white space or a
      NUL, `Trim` with NULs finds the same text. */
  lemma TrimToNumberText(s: string)
    requires var t := NumberText(s); t != [] && !IsWhiteOrNul(t[0]) && !IsWhiteOrNul(t[|t| - 1])
    ensures TrimWith(s, IsWhiteOrNul) == NumberText(s)
  {
    var a, m := NumberTextSlice(s);
    var t := NumberText(s);
    var front, back := s[..a], s[a + |t|..];
    assert forall i :: 0 <= i < |front| ==> IsWhiteOrNul(front[i]) by {
      forall i | 0 <= i < |front| ensures IsWhiteOrNul(front[i]) {
        NumberWhiteIsWhite(s[i]);
      }
    }
    assert forall i :: 0 <= i < |back| ==> IsWhiteOrNul(back[i]) by {
      forall i | 0 <= i < |back| ensures IsWhiteOrNul(back[i]) {
        assert back[i] == s[a + |t| + i];
        NumberWhiteIsWhite(back[i]);
      }
    }
    assert s == front + t + back;
    TrimWithOf(front, t, back, IsWhiteOrNul);
  }

  /** The white space `int.TryParse` skips is white space to `Trim` too. */
  lemma NumberWhiteIsWhite(c: char)
    ensures IsNumberWhite(c) ==> IsWhiteOrNul(c)
  {
  }

  lemma DigitEndIsNotBoolean(t: string)
    requires t != [] && IsDigit(t[|t| - 1])
    ensures Lower(t) != "true" && Lower(t) != "false"
  {
    assert Lower(t)[|t| - 1] == t[|t| - 1];
  }
}
