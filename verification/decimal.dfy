/**
 * The string handling of `remove_favorite`: `str.isdigit()` restricted to ASCII
 * digits, `int(s)` on a digit string, and the `str(n)` rendering that the
 * product gateway puts in the request path.
 */
module Decimal {

  predicate IsDigit(ch: char) { '0' <= ch <= '9' }

  /** `s.isdigit()`: non-empty and made of digits only. */
  predicate IsDigits(s: string) {
    |s| > 0 && forall i | 0 <= i < |s| :: IsDigit(s[i])
  }

  function DigitValue(ch: char): nat
    requires IsDigit(ch)
  {
    (ch as int - '0' as int) as nat
  }

  function DigitChar(d: nat): (ch: char)
    requires d < 10
    ensures IsDigit(ch) && DigitValue(ch) == d
  {
    ('0' as int + d) as char
  }

  /** `int(s)` for a string of digits, read most significant digit first. */
  function Value(s: string): nat
    requires forall i | 0 <= i < |s| :: IsDigit(s[i])
  {
    if s == [] then 0 else 10 * Value(s[..|s| - 1]) + DigitValue(s[|s| - 1])
  }

  /** `str(n)`: decimal digits without leading zeros ("0" for zero). */
  function Render(n: nat): (s: string)
    ensures IsDigits(s)
    ensures |s| == 1 || s[0] != '0'
  {
    if n < 10 then [DigitChar(n)] else Render(n / 10) + [DigitChar(n % 10)]
  }

  /** Reading back a rendered number gives the number: `int(str(n)) == n`. */
  lemma {:induction false} ValueOfRender(n: nat)
    ensures Value(Render(n)) == n
  {
    var s := Render(n);
    if n >= 10 {
      ValueOfRender(n / 10);
      assert s[..|s| - 1] == Render(n / 10);
    }
  }

  /** A digit string whose leading digit is not zero has a positive value. */
  lemma {:induction false} LeadingDigitPositive(s: string)
    requires IsDigits(s) && s[0] != '0'
    ensures Value(s) > 0
  {
    if |s| > 1 {
      var t := s[..|s| - 1];
      assert t[0] == s[0];
      LeadingDigitPositive(t);
    }
  }

  /**
   * A digit string without a superfluous leading zero is its own rendering:
   * `str(int(s)) == s`. Strings such as "007" are exactly those for which the
   * rendering differs.
   */
  lemma {:induction false} RenderOfValue(s: string)
    requires IsDigits(s) && (|s| == 1 || s[0] != '0')
    ensures Render(Value(s)) == s
  {
    if |s| > 1 {
      var t := s[..|s| - 1];
      var d := DigitValue(s[|s| - 1]);
      assert t[0] == s[0];
      LeadingDigitPositive(t);
      RenderOfValue(t);
      var n := Value(s);
      assert n == 10 * Value(t) + d;
      assert n / 10 == Value(t) && n % 10 == d;
      assert DigitChar(d) == s[|s| - 1];
      assert s == t + [s[|s| - 1]];
    } else {
      assert DigitChar(DigitValue(s[0])) == s[0];
    }
  }

  /** "007" reads as 7, which the gateway is asked for as "7". */
  lemma LeadingZerosDropped()
    ensures Render(Value("007")) == "7"
  {
    assert Value("007") == 7 by {
      assert "007"[..2] == "00";
      assert "00"[..1] == "0";
      assert "0"[..0] == "";
    }
  }
}
