/**
 * JavaScript's `Number(string)` on the integer numerals the calculator is fed,
 * and the conversion of an integer back to text (`String(n)`, as `join` does it).
 * `None` stands for `NaN`.
 */
module JsNumber {
  import opened Wrappers
  import opened JsString

  predicate IsDigit(c: char) {
    '0' <= c <= '9'
  }

  predicate AllDigits(s: string) {
    forall i :: 0 <= i < |s| ==> IsDigit(s[i])
  }

  function DigitValue(c: char): (d: nat)
    requires IsDigit(c)
    ensures d < 10
  {
    (c as int) - ('0' as int)
  }

  function DigitChar(d: nat): (c: char)
    requires d < 10
    ensures IsDigit(c) && DigitValue(c) == d
  {
    (('0' as int) + d) as char
  }

  /** The value of a decimal numeral, read left to right. */
  function DigitsValue(s: string): nat
    requires AllDigits(s)
  {
    if |s| == 0 then 0 else 10 * DigitsValue(s[..|s| - 1]) + DigitValue(s[|s| - 1])
  }

  /**
   * `Number(s)`: whitespace at both ends is ignored, text that is empty after
   * that is 0, and otherwise an optional sign followed by decimal digits is read
   * as an integer. Everything else is `NaN`.
   */
  function ToNumber(s: string): (r: Option<int>)
    ensures Trim(s) == "" ==> r == Some(0)
  {
    var t := Trim(s);
    if |t| == 0 then Some(0)
    else if (t[0] == '-' || t[0] == '+') && |t| >= 2 && AllDigits(t[1..]) then
      var v: int := DigitsValue(t[1..]);
      Some(if t[0] == '-' then -v else v)
    else if AllDigits(t) then Some(DigitsValue(t))
    else None
  }

  /** The shortest decimal numeral of `n`. */
  function NatToString(n: nat): (s: string)
    ensures |s| >= 1 && AllDigits(s)
  {
    if n < 10 then [DigitChar(n)] else NatToString(n / 10) + [DigitChar(n % 10)]
  }

  /** `String(n)` for an integer: a minus sign for negatives, then its digits. */
  function ToDecimalString(n: int): (s: string)
    ensures |s| >= 1
    ensures n < 0 <==> s[0] == '-'
    ensures forall i :: 0 <= i < |s| ==> IsDigit(s[i]) || (i == 0 && s[i] == '-')
  {
    if n < 0 then "-" + NatToString(-n) else NatToString(n)
  }

  lemma {:induction false} NatToStringValue(n: nat)
    ensures DigitsValue(NatToString(n)) == n
    decreases n
  {
    if n >= 10 {
      NatToStringValue(n / 10);
      var s := NatToString(n);
      assert s[..|s| - 1] == NatToString(n / 10);
    }
  }

  lemma {:induction false} NotWhiteSpace(c: char)
    requires IsDigit(c) || c == '-'
    ensures !IsWhiteSpace(c)
  {
  }

  /** A run of digits reads as its value. */
  lemma {:induction false} ToNumberOfDigits(t: string)
    requires |t| >= 1 && AllDigits(t)
    ensures ToNumber(t) == Some(DigitsValue(t))
  {
    NotWhiteSpace(t[0]);
    NotWhiteSpace(t[|t| - 1]);
    TrimUnchanged(t);
  }

  lemma {:induction false} NegatedNumeral(d: string, k: nat)
    requires |d| >= 1 && AllDigits(d) && DigitsValue(d) == k
    ensures ToNumber("-" + d) == Some(-(k as int))
  {
    var m := "-" + d;
    assert m[|m| - 1] == d[|d| - 1];
    NotWhiteSpace(d[|d| - 1]);
    TrimUnchanged(m);
    assert Trim(m) == m;
    assert m[1..] == d;
  }

  lemma {:induction false} NegativeDecimalString(n: int)
    requires n < 0
    ensures ToNumber(ToDecimalString(n)) == Some(n)
  {
    var k: nat := -n;
    var d := NatToString(k);
    assert ToDecimalString(n) == "-" + d;
    NatToStringValue(k);
    NegatedNumeral(d, k);
  }

  lemma {:induction false} NonNegativeDecimalString(n: int)
    requires n >= 0
    ensures ToNumber(ToDecimalString(n)) == Some(n)
  {
    NatToStringValue(n);
    ToNumberOfDigits(NatToString(n));
  }

  /** `Number(String(n)) == n`: the text of an integer reads back as that integer. */
  lemma {:induction false} ToNumberOfDecimalString(n: int)
    ensures ToNumber(ToDecimalString(n)) == Some(n)
  {
    if n < 0 {
      NegativeDecimalString(n);
    } else {
      NonNegativeDecimalString(n);
    }
  }

  /** Text whose trimmed form has a non-digit anywhere but at a leading sign is `NaN`. */
  lemma {:induction false} NotANumeral(s: string, i: nat)
    requires i < |Trim(s)| && !IsDigit(Trim(s)[i])
    requires i == 0 ==> Trim(s)[0] != '-' && Trim(s)[0] != '+'
    ensures ToNumber(s) == None
  {
    var t := Trim(s);
    if i > 0 {
      assert t[1..][i - 1] == t[i];
    }
  }
}
