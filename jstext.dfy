/**
 * The few pieces of ECMAScript string behaviour the model needs: the
 * character classes `\s` and `.` of regular expressions, `Array.prototype.join`
 * on strings, and the decimal text of an integer in a template literal.
 *
 * A Dafny `char` stands for one UTF-16 code unit of a JavaScript string.
 */
module JsText {

  /** A LineTerminator: the characters `.` does not match without the `s` flag. */
  predicate IsLineTerminator(c: char) {
    c == '\n' || c == '\r' || c == '\U{2028}' || c == '\U{2029}'
  }

  /** A character matched by `\s`: WhiteSpace (including category Zs) or LineTerminator. */
  predicate IsWhiteSpace(c: char) {
    || c == '\t' || c == '\U{000B}' || c == '\U{000C}' || c == ' '
    || c == '\U{00A0}' || c == '\U{FEFF}' || c == '\U{1680}'
    || ('\U{2000}' <= c <= '\U{200A}')
    || c == '\U{202F}' || c == '\U{205F}' || c == '\U{3000}'
    || IsLineTerminator(c)
  }

  /** `parts.join(sep)`: an empty array joins to the empty string. */
  function Join(parts: seq<string>, sep: string): string
    decreases |parts|
  {
    if |parts| == 0 then ""
    else if |parts| == 1 then parts[0]
    else parts[0] + sep + Join(parts[1..], sep)
  }

  function DigitChar(d: nat): (c: char)
    requires d < 10
    ensures '0' <= c <= '9'
  {
    (d + '0' as int) as char
  }

  function DigitValue(c: char): nat {
    if '0' <= c <= '9' then (c as int - '0' as int) as nat else 0
  }

  /** The text of a non-negative integer in a template literal: its decimal digits. */
  function Decimal(n: nat): (s: string)
    ensures |s| >= 1
    ensures forall i :: 0 <= i < |s| ==> '0' <= s[i] <= '9'
    ensures n >= 10 <==> |s| >= 2
    ensures |s| >= 2 ==> s[0] != '0'
  {
    if n < 10 then [DigitChar(n)] else Decimal(n / 10) + [DigitChar(n % 10)]
  }

  /** Reads a string of decimal digits back as a number. */
  function DecimalValue(s: string): nat
    decreases |s|
  {
    if |s| == 0 then 0 else DecimalValue(s[..|s| - 1]) * 10 + DigitValue(s[|s| - 1])
  }

  /** Reading back the decimal text of `n` gives `n`. */
  lemma {:induction false} DecimalRoundTrip(n: nat)
    ensures DecimalValue(Decimal(n)) == n
  {
    if n >= 10 {
      var s := Decimal(n);
      assert s[..|s| - 1] == Decimal(n / 10);
      DecimalRoundTrip(n / 10);
    }
  }

  /** A digit string without a leading zero is the decimal text of the number it reads as. */
  lemma {:induction false} DecimalCanonical(t: string)
    requires |t| >= 1 && forall i :: 0 <= i < |t| ==> '0' <= t[i] <= '9'
    requires |t| >= 2 ==> t[0] != '0'
    ensures Decimal(DecimalValue(t)) == t
    decreases |t|
  {
    var last := t[|t| - 1];
    assert DigitChar(DigitValue(last)) == last;
    if |t| >= 2 {
      var u := t[..|t| - 1];
      DecimalCanonical(u);
      var m := DecimalValue(u);
      if |u| == 1 {
        assert m == DigitValue(u[0]) && u[0] == t[0];
      }
      assert m >= 1;
      var n := DecimalValue(t);
      assert n == m * 10 + DigitValue(last);
      assert n / 10 == m && n % 10 == DigitValue(last);
      assert t == u + [last];
    }
  }

  /** Distinct numbers have distinct decimal texts. */
  lemma DecimalInjective(a: nat, b: nat)
    requires Decimal(a) == Decimal(b)
    ensures a == b
  {
    DecimalRoundTrip(a);
    DecimalRoundTrip(b);
  }
}
