/** Percent-decoding as `urllib.parse.unquote` does it on ASCII text: a
    `%` followed by two hexadecimal digits stands for the character with
    that code; any other `%` is kept as it is. */
module Percent {

  predicate IsHex(c: char) {
    ('0' <= c <= '9') || ('a' <= c <= 'f') || ('A' <= c <= 'F')
  }

  function HexValue(c: char): (v: nat)
    requires IsHex(c)
    ensures v < 16
  {
    if '0' <= c <= '9' then c as int - '0' as int
    else if 'a' <= c <= 'f' then c as int - 'a' as int + 10
    else c as int - 'A' as int + 10
  }

  /** The upper-case hexadecimal digit of a value below 16. */
  function HexDigit(v: nat): (c: char)
    requires v < 16
    ensures IsHex(c) && HexValue(c) == v
  {
    if v < 10 then ('0' as int + v) as char else ('A' as int + v - 10) as char
  }

  /** `unquote(s)` */
  function Unquote(s: string): (r: string)
    ensures |r| <= |s|
  {
    if |s| >= 3 && s[0] == '%' && IsHex(s[1]) && IsHex(s[2]) then
      [(HexValue(s[1]) * 16 + HexValue(s[2])) as char] + Unquote(s[3..])
    else if s == [] then []
    else [s[0]] + Unquote(s[1..])
  }

  /** Text without `%` is left alone. */
  lemma {:induction false} UnquotePlain(s: string)
    requires '%' !in s
    ensures Unquote(s) == s
  {
    if s != [] {
      assert '%' !in s[1..];
      UnquotePlain(s[1..]);
    }
  }

  /** Percent-encoding every character of an ASCII text. */
  function Quote(s: string): (r: string)
    requires forall i :: 0 <= i < |s| ==> s[i] as int < 128
    ensures |r| == 3 * |s|
  {
    if s == [] then []
    else ['%', HexDigit(s[0] as int / 16), HexDigit(s[0] as int % 16)] + Quote(s[1..])
  }

  /** Percent-encoding writes only `%` and hexadecimal digits. */
  lemma {:induction false} QuoteAvoids(s: string, c: char)
    requires forall i :: 0 <= i < |s| ==> s[i] as int < 128
    requires c != '%' && !IsHex(c)
    ensures c !in Quote(s)
  {
    if s != [] {
      QuoteAvoids(s[1..], c);
    }
  }

  /** `unquote` undoes percent-encoding of ASCII text. */
  lemma {:induction false} UnquoteQuote(s: string)
    requires forall i :: 0 <= i < |s| ==> s[i] as int < 128
    ensures Unquote(Quote(s)) == s
  {
    if s != [] {
      var q := Quote(s);
      assert q[3..] == Quote(s[1..]);
      UnquoteQuote(s[1..]);
      var c := s[0] as int;
      assert HexValue(q[1]) * 16 + HexValue(q[2]) == c;
    }
  }
}
