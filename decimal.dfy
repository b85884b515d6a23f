/** Decimal text of integers: Python's `str(n)` for an `int` and `int(s)`
    for a text or bytes value (base 10). */
module Decimal {
  import opened Wrappers

  predicate IsDigit(c: char) {
    '0' <= c <= '9'
  }

  predicate AllDigits(s: string) {
    forall i :: 0 <= i < |s| ==> IsDigit(s[i])
  }

  function DigitChar(d: nat): (c: char)
    requires d < 10
    ensures IsDigit(c)
  {
    ('0' as int + d) as char
  }

  /** `str(n)` for `n >= 0`: digits without leading zeros. */
  function ShowNat(n: nat): (r: string)
    ensures r != [] && AllDigits(r)
  {
    if n < 10 then [DigitChar(n)] else ShowNat(n / 10) + [DigitChar(n % 10)]
  }

  /** `str(i)`: a minus sign in front of negative numbers. */
  function ShowInt(i: int): (r: string)
    ensures r != [] && forall k :: 0 <= k < |r| ==> r[k] == '-' || IsDigit(r[k])
  {
    if i < 0 then "-" + ShowNat(-i) else ShowNat(i)
  }

  /** The number a non-empty run of digits denotes. */
  function DigitsValue(s: string): nat
    requires AllDigits(s)
  {
    if s == [] then 0 else DigitsValue(s[..|s| - 1]) * 10 + (s[|s| - 1] as int - '0' as int)
  }

  /** Reading back the digits of `str(n)` gives `n`. */
  lemma {:induction false} DigitsValueShowNat(n: nat)
    ensures DigitsValue(ShowNat(n)) == n
  {
    if n >= 10 {
      DigitsValueShowNat(n / 10);
      var s := ShowNat(n);
      assert s[..|s| - 1] == ShowNat(n / 10);
    }
  }

  /** The whitespace that `int()` strips from bytes. */
  predicate IsSpace(c: char) {
    c == ' ' || c == '\t' || c == '\n' || c == '\r' || c == '\U{0B}' || c == '\U{0C}'
  }

  function TrimLeft(s: string): (r: string)
    ensures r == [] || !IsSpace(r[0])
    ensures |r| <= |s|
  {
    if s != [] && IsSpace(s[0]) then TrimLeft(s[1..]) else s
  }

  function TrimRight(s: string): (r: string)
    ensures r == [] || !IsSpace(r[|r| - 1])
    ensures |r| <= |s|
  {
    if s != [] && IsSpace(s[|s| - 1]) then TrimRight(s[..|s| - 1]) else s
  }

  /** `int(s)`: surrounding whitespace, an optional sign and at least one
      digit; anything else raises (None). */
  function PyInt(s: string): (r: Option<int>)
  {
    var t := TrimRight(TrimLeft(s));
    if t == [] then None
    else
      var neg := t[0] == '-';
      var body := if t[0] == '-' || t[0] == '+' then t[1..] else t;
      if body != [] && AllDigits(body) then
        var v: int := DigitsValue(body);
        Some(if neg then -v else v)
      else None
  }

  /** `int(str(i)) == i`. */
  lemma PyIntShowInt(i: int)
    ensures PyInt(ShowInt(i)) == Some(i)
  {
    var s := ShowInt(i);
    var d := ShowNat(if i < 0 then -i else i);
    DigitsValueShowNat(if i < 0 then -i else i);
    assert TrimLeft(s) == s;
    assert TrimRight(s) == s by { assert s[|s| - 1] == d[|d| - 1]; }
    if i < 0 { assert s[1..] == d; }
  }

  /** `int()` ignores surrounding whitespace: `int(b' 42\r\n')` is 42. */
  lemma PyIntSpaces(s: string)
    requires s != [] && !IsSpace(s[0]) && !IsSpace(s[|s| - 1])
    ensures PyInt(" " + s + "\r\n") == PyInt(s)
  {
    var t := " " + s + "\r\n";
    assert t[1..] == s + "\r\n";
    assert TrimLeft(t) == s + "\r\n";
    var u := s + "\r\n";
    assert u[..|u| - 1] == s + "\r";
    assert (s + "\r")[..|s|] == s;
    assert TrimRight(s) == s;
    assert TrimRight(s + "\r") == s;
    assert TrimRight(u) == s;
  }
}
