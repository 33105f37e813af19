/** The pieces of Rust's string library the exchange relies on:
    `char::is_ascii_digit`, `char::is_whitespace`, `str::trim` and the
    decimal rendering of an `i64` (`to_string`). */
module Strings {

  predicate IsAsciiDigit(c: char) {
    '0' as int <= c as int <= '9' as int
  }

  /** `char::is_whitespace`: the characters with the Unicode White_Space
      property. */
  predicate IsWhitespace(c: char) {
    || ('\t' <= c <= '\r')
    || c == ' '
    || c == '\U{85}'
    || c == '\U{A0}'
    || c == '\U{1680}'
    || ('\U{2000}' <= c <= '\U{200A}')
    || c == '\U{2028}'
    || c == '\U{2029}'
    || c == '\U{202F}'
    || c == '\U{205F}'
    || c == '\U{3000}'
  }

  function TrimStart(s: string): string {
    if s != [] && IsWhitespace(s[0]) then TrimStart(s[1..]) else s
  }

  function TrimEnd(s: string): string {
    if s != [] && IsWhitespace(s[|s| - 1]) then TrimEnd(s[..|s| - 1]) else s
  }

  /** `str::trim`: whitespace removed at both ends. */
  function Trim(s: string): string {
    TrimEnd(TrimStart(s))
  }

  /** `trim_start` drops the leading whitespace and nothing else. */
  lemma {:induction false} TrimStartSpec(s: string)
    ensures var r := TrimStart(s);
      && |r| <= |s| && r == s[|s| - |r|..]
      && (forall i :: 0 <= i < |s| - |r| ==> IsWhitespace(s[i]))
      && (r == [] || !IsWhitespace(r[0]))
  {
    if s != [] && IsWhitespace(s[0]) {
      TrimStartSpec(s[1..]);
      var r := TrimStart(s);
      assert s[1..][|s| - 1 - |r|..] == s[|s| - |r|..];
      forall i | 0 <= i < |s| - |r| ensures IsWhitespace(s[i]) {
        if i > 0 {
          assert s[i] == s[1..][i - 1];
        }
      }
    } else {
      assert s[0..] == s;
    }
  }

  /** `trim_end` drops the trailing whitespace and nothing else. */
  lemma {:induction false} TrimEndSpec(s: string)
    ensures var r := TrimEnd(s);
      && |r| <= |s| && r == s[..|r|]
      && (forall i :: |r| <= i < |s| ==> IsWhitespace(s[i]))
      && (r == [] || !IsWhitespace(r[|r| - 1]))
  {
    if s != [] && IsWhitespace(s[|s| - 1]) {
      var init := s[..|s| - 1];
      TrimEndSpec(init);
      var r := TrimEnd(s);
      assert init[..|r|] == s[..|r|];
      forall i | |r| <= i < |s| ensures IsWhitespace(s[i]) {
        if i < |s| - 1 {
          assert s[i] == init[i];
        }
      }
    } else {
      assert s[..|s|] == s;
    }
  }

  /** What `trim` returns neither starts nor ends with whitespace, and is a
      slice of its argument with only whitespace around it. */
  lemma TrimSpec(s: string)
    ensures var r := Trim(s);
      && (r == [] || (!IsWhitespace(r[0]) && !IsWhitespace(r[|r| - 1])))
      && exists i :: (0 <= i <= |s| && r <= s[i..]
                      && (forall j :: 0 <= j < i ==> IsWhitespace(s[j]))
                      && (forall j :: i + |r| <= j < |s| ==> IsWhitespace(s[j])))
  {
    var t := TrimStart(s);
    var r := Trim(s);
    TrimStartSpec(s);
    TrimEndSpec(t);
    var i := |s| - |t|;
    assert r <= s[i..];
    if r != [] {
      assert r[0] == t[0];
    }
  }

  function DigitChar(d: nat): (c: char)
    requires d < 10
    ensures IsAsciiDigit(c)
  {
    ('0' as int + d) as char
  }

  /** The decimal digits of `n`, most significant first, without leading zeros. */
  function NatDigits(n: nat): (r: string)
    ensures |r| >= 1
    ensures forall i :: 0 <= i < |r| ==> IsAsciiDigit(r[i])
    ensures |r| > 1 ==> r[0] != '0'
  {
    (if n < 10 then [] else NatDigits(n / 10)) + [DigitChar(n % 10)]
  }

  /** The value of a string of decimal digits. */
  function DigitsValue(s: string): nat
    requires forall i :: 0 <= i < |s| ==> IsAsciiDigit(s[i])
  {
    if s == [] then 0
    else
      assert IsAsciiDigit(s[|s| - 1]);
      DigitsValue(s[..|s| - 1]) * 10 + (s[|s| - 1] as int - '0' as int)
  }

  lemma {:induction false} NatDigitsValue(n: nat)
    ensures DigitsValue(NatDigits(n)) == n
  {
    var r := NatDigits(n);
    assert r[|r| - 1] as int - '0' as int == n % 10;
    if n >= 10 {
      assert r[..|r| - 1] == NatDigits(n / 10);
      NatDigitsValue(n / 10);
      assert DigitsValue(r) == (n / 10) * 10 + n % 10;
    } else {
      assert r[..|r| - 1] == [];
    }
  }

  /** `i64::to_string`: a minus sign for negative values, then the digits
      of the magnitude. Only digits and `-` occur in it. */
  function Decimal(v: int): (r: string)
    ensures |r| >= 1 && (r[0] == '-' <==> v < 0) && (r[0] == '-' || IsAsciiDigit(r[0]))
    ensures forall i :: 0 < i < |r| ==> IsAsciiDigit(r[i])
  {
    if v < 0 then
      var d := NatDigits(-v);
      assert forall i :: 0 < i < |d| + 1 ==> ("-" + d)[i] == d[i - 1];
      "-" + d
    else NatDigits(v)
  }

  /** Reading a decimal rendering back. */
  function ParseDecimal(s: string): int
    requires s != [] && forall i :: 0 < i < |s| ==> IsAsciiDigit(s[i])
    requires s[0] == '-' || IsAsciiDigit(s[0])
  {
    if s[0] == '-' then -(DigitsValue(s[1..]) as int) else DigitsValue(s)
  }

  /** The rendering is faithful: it reads back as the value. */
  lemma DecimalRoundTrip(v: int)
    ensures ParseDecimal(Decimal(v)) == v
  {
    if v < 0 {
      var d := NatDigits(-v);
      assert Decimal(v) == "-" + d;
      assert ("-" + d)[1..] == d;
      NatDigitsValue(-v);
    } else {
      NatDigitsValue(v);
    }
  }
}
