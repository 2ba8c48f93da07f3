/** Decimal digit strings: their value, the canonical rendering of a natural
    number, and the two-decimal rendering of an amount of cents. */
module DecimalText {
  import opened Wrappers
  import Money

  /** The regular-expression class `\d` without UNICODE_CHARACTER_CLASS. */
  predicate IsDigit(c: char) {
    '0' <= c <= '9'
  }

  predicate AllDigits(s: string) {
    forall k :: 0 <= k < |s| ==> IsDigit(s[k])
  }

  function DigitValue(c: char): (d: nat)
    requires IsDigit(c)
    ensures d < 10
  {
    c as int - '0' as int
  }

  function DigitChar(d: nat): (c: char)
    requires d < 10
    ensures IsDigit(c) && DigitValue(c) == d
  {
    ('0' as int + d) as char
  }

  /** The value a digit string denotes (leading zeros allowed). */
  function Value(s: string): nat
    requires AllDigits(s)
  {
    if |s| == 0 then 0 else 10 * Value(s[..|s| - 1]) + DigitValue(s[|s| - 1])
  }

  /** The shortest digit string of `n`, as `Integer.toString` writes it. */
  function Digits(n: nat): (r: string)
    ensures AllDigits(r) && |r| > 0
    ensures r[0] == '0' ==> n == 0 && |r| == 1
  {
    if n < 10 then [DigitChar(n)] else Digits(n / 10) + [DigitChar(n % 10)]
  }

  lemma {:induction false} ValueOfDigits(n: nat)
    ensures Value(Digits(n)) == n
  {
    if n >= 10 {
      var p := Digits(n / 10);
      assert (p + [DigitChar(n % 10)])[..|p|] == p;
      ValueOfDigits(n / 10);
    }
  }

  /** Canonical digit strings are exactly the renderings of their values. */
  lemma {:induction false} DigitsOfValue(s: string)
    requires AllDigits(s) && |s| > 0 && (|s| > 1 ==> s[0] != '0')
    ensures Digits(Value(s)) == s
  {
    var n := Value(s);
    if |s| == 1 {
      assert s[..0] == [];
    } else {
      var p := s[..|s| - 1];
      LeadingDigitBound(p);
      assert Value(p) >= 1;
      assert n / 10 == Value(p) && n % 10 == DigitValue(s[|s| - 1]);
      DigitsOfValue(p);
      assert s == p + [s[|s| - 1]];
    }
  }

  /** A digit string without a leading zero has a value of at least
      10^(length − 1). */
  lemma {:induction false} LeadingDigitBound(s: string)
    requires AllDigits(s) && |s| > 0 && s[0] != '0'
    ensures Value(s) >= Money.Pow10(|s| - 1)
  {
    if |s| > 1 {
      var p := s[..|s| - 1];
      assert p[0] == s[0];
      LeadingDigitBound(p);
    }
  }

  const IntMax: int := 0x7fff_ffff

  /** `Integer.parseInt` on a non-empty string of ASCII digits: the value, or
      None where it throws NumberFormatException because the value exceeds
      Integer.MAX_VALUE. */
  function ParseInt(s: string): (r: Option<int>)
    requires AllDigits(s) && |s| > 0
    ensures r.Some? <==> Value(s) <= IntMax
    ensures r.Some? ==> r.value == Value(s)
  {
    if Value(s) <= IntMax then Some(Value(s)) else None
  }

  /** A non-negative amount of cents written with exactly two fraction
      digits, as `BigDecimal.toString` shows a scale-2 value. */
  function Fixed2(c: nat): (r: string)
    ensures |r| >= 4 && r[|r| - 3] == '.'
    ensures AllDigits(r[..|r| - 3]) && AllDigits(r[|r| - 2..])
    ensures Value(r[..|r| - 3]) == c / 100 && Value(r[|r| - 2..]) == c % 100
  {
    var ip := Digits(c / 100);
    var fp := [DigitChar(c / 10 % 10), DigitChar(c % 10)];
    var r := ip + "." + fp;
    assert r[..|r| - 3] == ip && r[|r| - 2..] == fp;
    ValueOfDigits(c / 100);
    assert fp[..|fp| - 1] == [fp[0]] && [fp[0]][..0] == [];
    assert Value([fp[0]]) == c / 10 % 10;
    assert Value(fp) == 10 * Value([fp[0]]) + c % 10;
    LastTwoDigits(c);
    r
  }

  lemma LastTwoDigits(c: nat)
    ensures c % 100 == 10 * (c / 10 % 10) + c % 10
  {
    var q := c / 10;
    assert c == 10 * q + c % 10;
    assert q == 10 * (q / 10) + q % 10;
    Money.DivModUnique(c, 100, q / 10, 10 * (q % 10) + c % 10);
  }
}
