/**
 * ASCII models of the Python string operations the attendance engine relies on:
 * `str.lower`, `str.strip`, `str.isdigit`, `str(int)` and `str.replace(' ', '_')`.
 * Python's versions are Unicode-aware; these follow them on ASCII and differ from
 * them elsewhere (non-ASCII whitespace, case mappings and digits are not recognised).
 */
module Text {

  /** Python's `str.isspace` restricted to ASCII: space, \t \n \v \f \r and the
      separators 0x1c..0x1f. */
  predicate IsSpace(c: char) {
    c == ' ' || 9 <= c as int <= 13 || 28 <= c as int <= 31
  }

  predicate IsUpper(c: char) {
    'A' <= c <= 'Z'
  }

  function LowerChar(c: char): char {
    if IsUpper(c) then (c as int + 32) as char else c
  }

  /** `s.lower()` */
  function Lower(s: string): string {
    seq(|s|, i requires 0 <= i < |s| => LowerChar(s[i]))
  }

  /** `s.lstrip()`: the longest suffix of `s` that does not start with whitespace. */
  function TrimLeft(s: string): (r: string)
    ensures |r| <= |s| && r == s[|s| - |r|..]
    ensures forall i :: 0 <= i < |s| - |r| ==> IsSpace(s[i])
    ensures r == [] || !IsSpace(r[0])
    decreases |s|
  {
    if |s| > 0 && IsSpace(s[0]) then TrimLeft(s[1..]) else s
  }

  /** `s.rstrip()`: the longest prefix of `s` that does not end with whitespace. */
  function TrimRight(s: string): (r: string)
    ensures |r| <= |s| && r == s[..|r|]
    ensures forall i :: |r| <= i < |s| ==> IsSpace(s[i])
    ensures r == [] || !IsSpace(r[|r| - 1])
    decreases |s|
  {
    if |s| > 0 && IsSpace(s[|s| - 1]) then TrimRight(s[..|s| - 1]) else s
  }

  /** A string with no whitespace at either end. */
  predicate Trimmed(s: string) {
    s == [] || (!IsSpace(s[0]) && !IsSpace(s[|s| - 1]))
  }

  /** Cutting whitespace off the left and then the right of `s` leaves a slice of
      `s`, and everything cut off on the right is whitespace of `s`. */
  lemma CutBothEnds(s: string, left: string, r: string)
    requires |left| <= |s| && left == s[|s| - |left|..]
    requires |r| <= |left| && r == left[..|r|]
    requires forall i :: |r| <= i < |left| ==> IsSpace(left[i])
    ensures r == s[|s| - |left|..|s| - |left| + |r|]
    ensures forall i :: |s| - |left| + |r| <= i < |s| ==> IsSpace(s[i])
  {
    var a := |s| - |left|;
    forall i | a + |r| <= i < |s|
      ensures IsSpace(s[i])
    {
      assert s[i] == left[i - a];
    }
  }

  /** `s.strip()`: `s` with the whitespace at both ends removed, and nothing else. */
  function Strip(s: string): (r: string)
    ensures Trimmed(r) && |r| <= |s|
    ensures Trimmed(s) ==> r == s
    ensures exists a, b :: 0 <= a <= b <= |s| && r == s[a..b] &&
              (forall i :: 0 <= i < a ==> IsSpace(s[i])) && (forall i :: b <= i < |s| ==> IsSpace(s[i]))
  {
    var left := TrimLeft(s);
    var r := TrimRight(left);
    CutBothEnds(s, left, r);
    r
  }

  /** Lower-casing moves no whitespace: a string has whitespace at an end exactly
      when its lower-cased form does. */
  lemma LowerKeepsTrimmed(s: string)
    ensures Trimmed(Lower(s)) <==> Trimmed(s)
  {
    if s != [] {
      assert Lower(s)[0] == LowerChar(s[0]);
      assert Lower(s)[|s| - 1] == LowerChar(s[|s| - 1]);
    }
  }

  predicate IsDigitChar(c: char) {
    '0' <= c <= '9'
  }

  predicate AllDigits(s: string) {
    forall i :: 0 <= i < |s| ==> IsDigitChar(s[i])
  }

  /** `s.isdigit()` over ASCII: non-empty and every character a decimal digit. */
  predicate IsDigitString(s: string) {
    |s| > 0 && AllDigits(s)
  }

  function DigitChar(d: nat): (c: char)
    requires d < 10
    ensures IsDigitChar(c)
  {
    ('0' as int + d) as char
  }

  function DigitValue(c: char): (d: nat)
    requires IsDigitChar(c)
    ensures d < 10 && DigitChar(d) == c
  {
    c as int - '0' as int
  }

  /** `str(n)` for a non-negative integer: its canonical decimal numeral. */
  function DecimalString(n: nat): (s: string)
    ensures IsDigitString(s)
    ensures s[0] == '0' <==> n == 0
    decreases n
  {
    if n < 10 then [DigitChar(n)] else DecimalString(n / 10) + [DigitChar(n % 10)]
  }

  /** `int(s)` for a string of decimal digits (the empty string reads as 0). */
  function DigitsValue(s: string): nat
    requires AllDigits(s)
  {
    if s == [] then 0 else DigitsValue(s[..|s| - 1]) * 10 + DigitValue(s[|s| - 1])
  }

  /** Reading back the numeral of `n` gives `n`. */
  lemma {:induction false} DecimalRoundTrip(n: nat)
    ensures DigitsValue(DecimalString(n)) == n
    decreases n
  {
    if n >= 10 {
      DecimalRoundTrip(n / 10);
      var prefix := DecimalString(n / 10);
      assert (prefix + [DigitChar(n % 10)])[..|prefix|] == prefix;
    }
  }

  /** Every digit string without a superfluous leading zero is the numeral of its value. */
  lemma {:induction false} CanonicalRoundTrip(s: string)
    requires IsDigitString(s)
    requires s[0] == '0' ==> |s| == 1
    ensures DecimalString(DigitsValue(s)) == s
    decreases |s|
  {
    var last := s[|s| - 1];
    var v := DigitValue(last);
    if |s| == 1 {
      assert s[..0] == [];
      assert DigitsValue(s) == v;
      assert s == [last];
    } else {
      var prefix := s[..|s| - 1];
      assert prefix[0] == s[0];
      CanonicalRoundTrip(prefix);
      var x := DigitsValue(prefix);
      assert x != 0;
      var n := x * 10 + v;
      assert n / 10 == x && n % 10 == v;
      assert DecimalString(n) == prefix + [last];
      assert s == prefix + [last];
    }
  }

  /** Distinct numbers have distinct numerals. */
  lemma DecimalStringInjective(m: nat, n: nat)
    requires DecimalString(m) == DecimalString(n)
    ensures m == n
  {
    DecimalRoundTrip(m);
    DecimalRoundTrip(n);
  }

  /** A four-digit number has a four-character numeral. */
  lemma FourDigitNumeral(n: nat)
    requires 1000 <= n <= 9999
    ensures |DecimalString(n)| == 4
  {
    var n1, n2, n3 := n / 10, n / 10 / 10, n / 10 / 10 / 10;
    assert 100 <= n1 <= 999 && 10 <= n2 <= 99 && 1 <= n3 <= 9;
    assert |DecimalString(n3)| == 1;
    assert |DecimalString(n2)| == 2;
    assert |DecimalString(n1)| == 3;
  }

  /** `s.replace(' ', '_')` */
  function Underscored(s: string): (r: string)
    ensures |r| == |s| && ' ' !in r
    ensures forall i :: 0 <= i < |s| ==> (r[i] == s[i] || (s[i] == ' ' && r[i] == '_'))
  {
    seq(|s|, i requires 0 <= i < |s| => if s[i] == ' ' then '_' else s[i])
  }
}
